/** The batching loop of `renderText` in src/main.c. Each character other
    than a newline or a space takes the next of the 64 slots of
    `charsToRender`; a full set of slots is drawn at once and the slots are
    reused, and whatever is left is drawn at the end. `_renderText(length)`
    draws the first `length` slots, and nothing when `length` is 0: here a
    draw is recorded as the sequence of texture ids it sends. A glyph's
    texture id is its character code, the value `textInit` stores. */
module TextBatch {

  /** `CHAR_RENDER_BATCH_SIZE`. */
  const BATCH: nat := 64

  /** Newlines and spaces move the pen but are not drawn. */
  predicate Drawn(c: char) {
    c != '\n' && c != ' '
  }

  /** The texture ids of the drawn characters of `text`, in order. */
  function Glyphs(text: string): (r: seq<int>)
    ensures |r| <= |text|
  {
    if text == [] then []
    else
      var c := text[|text| - 1];
      Glyphs(text[..|text| - 1]) + (if Drawn(c) then [c as int] else [])
  }

  /** All draws' ids, in order. */
  function Flatten(draws: seq<seq<int>>): seq<int> {
    if draws == [] then [] else Flatten(draws[..|draws| - 1]) + draws[|draws| - 1]
  }

  /** The total number of instances drawn. */
  function Total(draws: seq<seq<int>>): nat {
    if draws == [] then 0 else Total(draws[..|draws| - 1]) + |draws[|draws| - 1]|
  }

  /** Every draw took a full set of slots. */
  predicate AllFull(draws: seq<seq<int>>) {
    draws == [] || (AllFull(draws[..|draws| - 1]) && |draws[|draws| - 1]| == BATCH)
  }

  /** `AllFull`, draw by draw. */
  lemma {:induction false} AllFullEach(draws: seq<seq<int>>)
    requires AllFull(draws)
    ensures forall k | 0 <= k < |draws| :: |draws[k]| == BATCH
  {
    if draws != [] {
      AllFullEach(draws[..|draws| - 1]);
    }
  }

  /** Reference batching: consecutive runs of 64 ids, then the rest if
      there is any. */
  function Chunks(ids: seq<int>): (r: seq<seq<int>>)
    ensures forall k | 0 <= k < |r| :: 0 < |r[k]| <= BATCH
    ensures forall k | 0 <= k < |r| - 1 :: |r[k]| == BATCH
    decreases |ids|
  {
    if ids == [] then []
    else if |ids| <= BATCH then [ids]
    else [ids[..BATCH]] + Chunks(ids[BATCH..])
  }

  /** `_renderText(length, shader)`: a draw of the first `length` slots,
      or no draw at all when `length` is 0. */
  method RenderBatch(slots: array<int>, length: nat, draws: seq<seq<int>>) returns (draws': seq<seq<int>>)
    requires length <= slots.Length
    ensures draws' == if length == 0 then draws else draws + [slots[..length]]
  {
    if length != 0 {
      draws' := draws + [slots[..length]];
    } else {
      draws' := draws;
    }
  }

  /** `charsToRender[workingIndex].texId = …`: the next slot takes an id. */
  method Place(slots: array<int>, workingIndex: nat, id: int)
    requires workingIndex < slots.Length
    modifies slots
    ensures slots[..] == old(slots[..])[workingIndex := id]
    ensures slots[..workingIndex + 1] == old(slots[..workingIndex]) + [id]
  {
    slots[workingIndex] := id;
    assert slots[..workingIndex + 1] == old(slots[..workingIndex]) + [id];
  }

  /** What the loop of `renderText` keeps after the first `i` characters:
      their drawn ids are the ids drawn so far followed by the first
      `workingIndex` slots, every draw so far took a full set of slots,
      and when no slot is pending the slots hold the last draw. */
  ghost predicate Filling(text: string, i: nat, slots: seq<int>, draws: seq<seq<int>>, workingIndex: nat, pending: seq<int>) {
    && i <= |text| && |slots| == BATCH && workingIndex < BATCH
    && pending == slots[..workingIndex]
    && Flatten(draws) + pending == Glyphs(text[..i])
    && AllFull(draws)
    && (workingIndex == 0 && draws != [] ==> slots == draws[|draws| - 1])
  }

  /** One pass of the loop body of `renderText`: newlines and spaces are
      skipped, any other character takes the next slot, and a full set of
      slots is drawn. */
  method NextChar(text: string, i: nat, slots: array<int>, draws: seq<seq<int>>, workingIndex: nat, ghost pending: seq<int>)
    returns (draws': seq<seq<int>>, workingIndex': nat, ghost pending': seq<int>)
    requires i < |text| && Filling(text, i, slots[..], draws, workingIndex, pending)
    modifies slots
    ensures Filling(text, i + 1, slots[..], draws', workingIndex', pending')
  {
    draws', workingIndex', pending' := draws, workingIndex, pending;
    GlyphsStep(text, i, Flatten(draws), pending);
    if text[i] != '\n' && text[i] != ' ' {
      Place(slots, workingIndex', text[i] as int);
      pending' := pending' + [text[i] as int];
      workingIndex' := workingIndex' + 1;
      if workingIndex' >= BATCH {
        Flush(draws', pending');
        draws' := RenderBatch(slots, workingIndex', draws');
        pending' := [];
        workingIndex' := 0;
      }
    }
  }

  /** The loop of `renderText`: every drawn character has gone into a slot,
      each full set of slots has been drawn, and the first `workingIndex`
      slots hold the characters not drawn yet. */
  method FillSlots(text: string, slots: array<int>) returns (draws: seq<seq<int>>, workingIndex: nat, ghost pending: seq<int>)
    requires slots.Length == BATCH
    modifies slots
    ensures Filling(text, |text|, slots[..], draws, workingIndex, pending)
  {
    workingIndex := 0;
    pending := [];
    draws := [];
    for i := 0 to |text|
      invariant Filling(text, i, slots[..], draws, workingIndex, pending)
    {
      draws, workingIndex, pending := NextChar(text, i, slots, draws, workingIndex, pending);
    }
  }

  /** `renderText(ri, text, …)`, with `slots` standing for `charsToRender`:
      the draws are the 64-id chunks of the drawn characters, and the slots
      end up holding the last draw. */
  method RenderText(text: string, slots: array<int>) returns (draws: seq<seq<int>>)
    requires slots.Length == BATCH
    modifies slots
    ensures draws == Chunks(Glyphs(text))
    ensures draws != [] ==> slots[..|draws[|draws| - 1]|] == draws[|draws| - 1]
  {
    var full, workingIndex, pending := FillSlots(text, slots);
    assert text[..|text|] == text;
    AllFullEach(full);
    FullChunks(full, pending);
    draws := RenderBatch(slots, workingIndex, full);
  }

  /** Drawing a full set of pending ids moves them from pending to drawn. */
  lemma Flush(draws: seq<seq<int>>, pending: seq<int>)
    requires AllFull(draws) && |pending| == BATCH
    ensures AllFull(draws + [pending])
    ensures Flatten(draws + [pending]) == Flatten(draws) + pending
  {
    FlattenSnoc(draws, pending);
    assert (draws + [pending])[..|draws|] == draws;
  }

  /** One more character extends what has been rendered or is pending by
      its id when it is drawn. */
  lemma GlyphsStep(text: string, i: nat, rendered: seq<int>, pending: seq<int>)
    requires i < |text| && rendered + pending == Glyphs(text[..i])
    ensures Drawn(text[i]) ==> rendered + (pending + [text[i] as int]) == Glyphs(text[..i + 1])
    ensures !Drawn(text[i]) ==> rendered + pending == Glyphs(text[..i + 1])
  {
    assert text[..i + 1][..i] == text[..i];
  }

  /** One more draw adds its ids at the end. */
  lemma FlattenSnoc(draws: seq<seq<int>>, d: seq<int>)
    ensures Flatten(draws + [d]) == Flatten(draws) + d
  {
    assert (draws + [d])[..|draws|] == draws;
  }

  /** Full batches followed by a short remainder are their own chunks. */
  lemma {:induction false} FullChunks(full: seq<seq<int>>, rest: seq<int>)
    requires forall k | 0 <= k < |full| :: |full[k]| == BATCH
    requires |rest| < BATCH
    ensures Chunks(Flatten(full) + rest) == full + (if rest == [] then [] else [rest])
    decreases |full|
  {
    if full != [] {
      var tail := full[1..];
      FlattenFront(full);
      FullChunks(tail, rest);
      var ids := Flatten(full) + rest;
      assert ids == full[0] + (Flatten(tail) + rest);
      assert ids[..BATCH] == full[0];
      assert ids[BATCH..] == Flatten(tail) + rest;
      assert full == [full[0]] + tail;
    } else {
      assert Flatten(full) + rest == rest;
    }
  }

  /** `Flatten` peels from the front as well. */
  lemma {:induction false} FlattenFront(draws: seq<seq<int>>)
    requires draws != []
    ensures Flatten(draws) == draws[0] + Flatten(draws[1..])
    decreases |draws|
  {
    if |draws| > 1 {
      var init := draws[..|draws| - 1];
      FlattenFront(init);
      assert init[1..] == draws[1..][..|draws[1..]| - 1];
    } else {
      assert draws[..0] == [];
    }
  }

  /** Drawing every chunk draws every glyph, in order. */
  lemma {:induction false} ChunksFlatten(ids: seq<int>)
    ensures Flatten(Chunks(ids)) == ids
    decreases |ids|
  {
    if ids != [] {
      if |ids| <= BATCH {
        assert Flatten([ids]) == Flatten([]) + ids;
      } else {
        var c := Chunks(ids);
        ChunksFlatten(ids[BATCH..]);
        FlattenFront(c);
        assert c[1..] == Chunks(ids[BATCH..]);
        assert ids == ids[..BATCH] + ids[BATCH..];
      }
    }
  }

  /** The instance counts of all draws add up to the number of drawn
      characters. */
  lemma {:induction false} TotalIsLength(draws: seq<seq<int>>)
    ensures Total(draws) == |Flatten(draws)|
    decreases |draws|
  {
    if draws != [] {
      TotalIsLength(draws[..|draws| - 1]);
    }
  }

  /** One id per drawn character: the draws of `renderText` send exactly as
      many instances as the text has characters other than newlines and
      spaces. */
  lemma {:induction false} GlyphCount(text: string)
    ensures |Glyphs(text)| == |set i | 0 <= i < |text| && Drawn(text[i])|
    ensures Total(Chunks(Glyphs(text))) == |Glyphs(text)|
    decreases |text|
  {
    ChunksFlatten(Glyphs(text));
    TotalIsLength(Chunks(Glyphs(text)));
    if text != [] {
      var n := |text| - 1;
      GlyphCount(text[..n]);
      var before := set i | 0 <= i < n && Drawn(text[..n][i]);
      var now := set i | 0 <= i < |text| && Drawn(text[i]);
      if Drawn(text[n]) {
        assert now == before + {n};
      } else {
        assert now == before;
      }
    }
  }

  /** A text without drawn characters draws nothing; a shorter run than a
      full batch is drawn once. */
  lemma SmallTexts(text: string)
    ensures Glyphs(text) == [] ==> Chunks(Glyphs(text)) == []
    ensures 0 < |Glyphs(text)| <= BATCH ==> Chunks(Glyphs(text)) == [Glyphs(text)]
  {
  }
}
