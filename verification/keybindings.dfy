/** The key bindings of src/main.c: a fixed table of `K_BINDS` entries, each
    a key code, a callback kind and a `pressed` flag, updated in place by
    the GLFW input callback `keybindingsPoll`. */
module Keybindings {
  import opened Common

  /** The callback kinds. */
  const NO_CALLBACK: int := 0
  const CALLBACK_TOGGLE: int := 1

  /** GLFW's action codes. */
  const GLFW_RELEASE: int := 0
  const GLFW_PRESS: int := 1
  const GLFW_REPEAT: int := 2

  /** GLFW's codes for the keys and buttons that are bound. */
  const GLFW_KEY_W: int := 87
  const GLFW_KEY_A: int := 65
  const GLFW_KEY_D: int := 68
  const GLFW_KEY_S: int := 83
  const GLFW_KEY_SPACE: int := 32
  const GLFW_KEY_ESCAPE: int := 256
  const GLFW_MOUSE_BUTTON_LEFT: int := 0
  const GLFW_MOUSE_BUTTON_RIGHT: int := 1
  const GLFW_KEY_R: int := 82

  /** The bindings' slots, in table order; `K_BINDS` is their number. */
  const KMOVE_FORW: nat := 0
  const KMOVE_LEFT: nat := 1
  const KMOVE_RIGHT: nat := 2
  const KMOVE_BACK: nat := 3
  const KJUMP: nat := 4
  const KPAUSE: nat := 5
  const K_SHOOT: nat := 6
  const K_AIM: nat := 7
  const K_RELOAD: nat := 8
  const K_BINDS: nat := 9

  datatype Keybinding = Keybinding(callback: int, key: int, pressed: bool)

  /** `KEYBIND(key, callback)`: not pressed. */
  function Bind(key: int, callback: int): Keybinding {
    Keybinding(callback, key, false)
  }

  /** The initial table `Keybinds`. */
  function Defaults(): (r: seq<Keybinding>)
    ensures |r| == K_BINDS
  {
    [ Bind(GLFW_KEY_W, NO_CALLBACK), Bind(GLFW_KEY_A, NO_CALLBACK),
      Bind(GLFW_KEY_D, NO_CALLBACK), Bind(GLFW_KEY_S, NO_CALLBACK),
      Bind(GLFW_KEY_SPACE, NO_CALLBACK),
      Bind(GLFW_KEY_ESCAPE, CALLBACK_TOGGLE),
      Bind(GLFW_MOUSE_BUTTON_LEFT, CALLBACK_TOGGLE),
      Bind(GLFW_MOUSE_BUTTON_RIGHT, CALLBACK_TOGGLE),
      Bind(GLFW_KEY_R, CALLBACK_TOGGLE) ]
  }

  /** The first binding of `key` in table order, if any. */
  function FirstMatch(binds: seq<Keybinding>, key: int): (r: Option<nat>)
    ensures r.Some? ==> r.value < |binds| && binds[r.value].key == key
    ensures r.Some? ==> forall j | 0 <= j < r.value :: binds[j].key != key
    ensures r.None? <==> forall j | 0 <= j < |binds| :: binds[j].key != key
  {
    if binds == [] then None
    else if binds[0].key == key then Some(0)
    else match FirstMatch(binds[1..], key)
      case None => None
      case Some(i) => Some(i + 1)
  }

  /** The new `pressed` flag of a matched binding. */
  function NewPressed(b: Keybinding, action: int): bool {
    if b.callback == NO_CALLBACK then action == GLFW_PRESS || action == GLFW_REPEAT
    else if b.callback == CALLBACK_TOGGLE then action == GLFW_PRESS
    else b.pressed
  }

  /** The table after one event: only the first binding of `key` is
      touched. */
  function PollSpec(binds: seq<Keybinding>, key: int, action: int): seq<Keybinding> {
    match FirstMatch(binds, key)
    case None => binds
    case Some(i) => binds[i := binds[i].(pressed := NewPressed(binds[i], action))]
  }

  /** A fresh table holding the defaults. */
  method NewKeybinds() returns (binds: array<Keybinding>)
    ensures fresh(binds) && binds[..] == Defaults()
  {
    binds := new Keybinding[K_BINDS](i => Bind(0, 0));
    var d := Defaults();
    for i := 0 to K_BINDS
      invariant forall j | 0 <= j < i :: binds[j] == d[j]
    {
      binds[i] := d[i];
    }
  }

  /** `keybindingsPoll(window, key, scancode, action, mods)`: the window,
      scancode and modifiers are not read. */
  method Poll(binds: array<Keybinding>, key: int, action: int)
    modifies binds
    ensures binds[..] == PollSpec(old(binds[..]), key, action)
  {
    for i := 0 to binds.Length
      invariant binds[..] == old(binds[..])
      invariant forall j | 0 <= j < i :: binds[j].key != key
    {
      var k := binds[i].key;
      var c := binds[i].callback;
      if key == k {
        if c == NO_CALLBACK {
          binds[i] := binds[i].(pressed := action == GLFW_PRESS || action == GLFW_REPEAT);
        } else if c == CALLBACK_TOGGLE {
          binds[i] := binds[i].(pressed := action == GLFW_PRESS);
        }
        assert FirstMatch(old(binds[..]), key) == Some(i);
        return;
      }
    }
  }

  /** Only the first binding of the key can change; an unbound key changes
      nothing, and the table keeps its size and its keys and callbacks. */
  lemma PollTouchesFirstMatchOnly(binds: seq<Keybinding>, key: int, action: int)
    ensures |PollSpec(binds, key, action)| == |binds|
    ensures forall j | 0 <= j < |binds| ::
      && PollSpec(binds, key, action)[j].key == binds[j].key
      && PollSpec(binds, key, action)[j].callback == binds[j].callback
    ensures forall j | 0 <= j < |binds| && FirstMatch(binds, key) != Some(j) ::
      PollSpec(binds, key, action)[j] == binds[j]
    ensures (forall j | 0 <= j < |binds| :: binds[j].key != key) ==> PollSpec(binds, key, action) == binds
  {
  }

  /** A held key (`PRESS` or `REPEAT`) sets a plain binding; `RELEASE`
      clears it. */
  lemma NoCallbackFollowsHold(binds: seq<Keybinding>, key: int, action: int, i: nat)
    requires FirstMatch(binds, key) == Some(i) && binds[i].callback == NO_CALLBACK
    ensures PollSpec(binds, key, action)[i].pressed <==> action == GLFW_PRESS || action == GLFW_REPEAT
  {
  }

  /** A toggle binding is set only by the initial `PRESS`: `REPEAT` and
      `RELEASE` both clear it. */
  lemma ToggleFollowsPressOnly(binds: seq<Keybinding>, key: int, action: int, i: nat)
    requires FirstMatch(binds, key) == Some(i) && binds[i].callback == CALLBACK_TOGGLE
    ensures PollSpec(binds, key, action)[i].pressed <==> action == GLFW_PRESS
  {
  }

  /** The same event twice has the effect of once. */
  lemma PollIdempotent(binds: seq<Keybinding>, key: int, action: int)
    ensures PollSpec(PollSpec(binds, key, action), key, action) == PollSpec(binds, key, action)
  {
    PollTouchesFirstMatchOnly(binds, key, action);
  }

  /** Every key of the default table is bound once, so each event reaches
      the binding of its own key. */
  lemma DefaultsReachOwnSlot(i: nat)
    requires i < K_BINDS
    ensures FirstMatch(Defaults(), Defaults()[i].key) == Some(i)
  {
    var d := Defaults();
    assert forall j, k | 0 <= j < k < K_BINDS :: d[j].key != d[k].key;
  }

  /** Movement keys are plain bindings; pause, shoot, aim and reload are
      toggles. */
  lemma DefaultsCallbacks()
    ensures forall i | 0 <= i < K_BINDS :: Defaults()[i].callback == (if i <= KJUMP then NO_CALLBACK else CALLBACK_TOGGLE)
    ensures forall i | 0 <= i < K_BINDS :: !Defaults()[i].pressed
  {
  }
}
