/** The keyboard handling of textures/icons.c: the global `icon_id` pair and
    the GLFW key callback `key_cb` that changes the selected icon. */
module IconKeys {
  import opened GLTypes

  /** GLFW 3 action and key codes the callback compares against. */
  const GLFW_RELEASE: int := 0
  const GLFW_PRESS: int := 1
  const GLFW_REPEAT: int := 2
  const GLFW_KEY_ESCAPE: int := 256
  const GLFW_KEY_RIGHT: int := 262
  const GLFW_KEY_LEFT: int := 263

  /** One call of the key callback, reduced to the arguments it reads. */
  datatype KeyEvent = KeyEvent(key: int, action: int)

  predicate IsDigitKey(key: int) {
    '0' as int <= key <= '9' as int
  }

  /** The icon id after one key event: a digit key press selects that
      digit, a right-arrow press increments and a left-arrow press
      decrements the id in 32-bit unsigned arithmetic; anything else
      keeps it. */
  function NextIconId(id: GLuint, key: int, action: int): (r: GLuint)
    ensures r != id ==> action == GLFW_PRESS
  {
    if IsDigitKey(key) && action == GLFW_PRESS then key - '0' as int
    else if key == GLFW_KEY_RIGHT && action == GLFW_PRESS then WrapUint(id + 1)
    else if key == GLFW_KEY_LEFT && action == GLFW_PRESS then WrapUint(id - 1)
    else id
  }

  /** The icon id after a sequence of key events, in order. */
  function Run(id: GLuint, events: seq<KeyEvent>): GLuint
  {
    if events == [] then id
    else
      var last := events[|events| - 1];
      NextIconId(Run(id, events[..|events| - 1]), last.key, last.action)
  }

  /** `k` presses of the same key. */
  function Presses(key: int, k: nat): (evs: seq<KeyEvent>)
    ensures |evs| == k
  {
    if k == 0 then [] else Presses(key, k - 1) + [KeyEvent(key, GLFW_PRESS)]
  }

  /** The process-wide state `key_cb` reads and writes. */
  class IconState {
    /** `icon_id[0]`: the selected icon. */
    var iconId: GLuint
    /** `icon_id[1]`: the number of icons per side of the texture. */
    var iconsPerSide: GLuint
    /** Whether the callback has asked GLFW to close the window. */
    var closeRequested: bool

    /** The static initialiser `{0, 4}`: icon 0 of a 4 x 4 icon set. */
    constructor ()
      ensures iconId == 0 && iconsPerSide == 4 && !closeRequested
    {
      iconId := 0;
      iconsPerSide := 4;
      closeRequested := false;
    }

    /** `key_cb`: Escape requests closing the window; a digit, right-arrow
        or left-arrow press changes the icon id; `icon_id[1]` never changes. */
    method KeyCallback(key: int, action: int)
      modifies this
      ensures iconId == NextIconId(old(iconId), key, action)
      ensures iconsPerSide == old(iconsPerSide)
      ensures closeRequested == (old(closeRequested) || (key == GLFW_KEY_ESCAPE && action == GLFW_PRESS))
    {
      if key == GLFW_KEY_ESCAPE && action == GLFW_PRESS {
        closeRequested := true;
      }

      if IsDigitKey(key) && action == GLFW_PRESS {
        iconId := key - '0' as int;
      } else if key == GLFW_KEY_RIGHT && action == GLFW_PRESS {
        iconId := if iconId == GLUINT_MAX then 0 else iconId + 1;
      } else if key == GLFW_KEY_LEFT && action == GLFW_PRESS {
        iconId := if iconId == 0 then GLUINT_MAX else iconId - 1;
      }
    }
  }

  /** A digit press selects that digit whatever the id was. */
  lemma DigitPressSelects(id: GLuint, d: int)
    requires 0 <= d <= 9
    ensures NextIconId(id, '0' as int + d, GLFW_PRESS) == d
  {
  }

  /** Arrow presses step by one modulo 2^32: left at id 0 gives 4294967295
      and right at 4294967295 gives 0. */
  lemma ArrowPressesWrap()
    ensures NextIconId(0, GLFW_KEY_LEFT, GLFW_PRESS) == 4294967295
    ensures NextIconId(4294967295, GLFW_KEY_RIGHT, GLFW_PRESS) == 0
  {
  }

  /** Right and left presses undo each other, in either order. */
  lemma RightLeftInverse(id: GLuint)
    ensures NextIconId(NextIconId(id, GLFW_KEY_RIGHT, GLFW_PRESS), GLFW_KEY_LEFT, GLFW_PRESS) == id
    ensures NextIconId(NextIconId(id, GLFW_KEY_LEFT, GLFW_PRESS), GLFW_KEY_RIGHT, GLFW_PRESS) == id
  {
  }

  /** Releases, repeats and keys other than digits and arrows leave the id. */
  lemma OtherEventsKeepId(id: GLuint, key: int, action: int)
    requires action != GLFW_PRESS || !(IsDigitKey(key) || key == GLFW_KEY_RIGHT || key == GLFW_KEY_LEFT)
    ensures NextIconId(id, key, action) == id
  {
  }

  /** Holding a key down does not move the selection: GLFW's auto-repeat
      events, and the release, leave the id whatever the key. */
  lemma RepeatAndReleaseKeepId(id: GLuint, key: int)
    ensures NextIconId(id, key, GLFW_REPEAT) == id
    ensures NextIconId(id, key, GLFW_RELEASE) == id
  {
  }

  /** After any history, a final digit press decides the id alone. */
  lemma LastDigitWins(id1: GLuint, id2: GLuint, events: seq<KeyEvent>, d: int)
    requires 0 <= d <= 9
    requires events != [] && events[|events| - 1] == KeyEvent('0' as int + d, GLFW_PRESS)
    ensures Run(id1, events) == d && Run(id2, events) == d
  {
  }

  /** Running one more event applies the callback once more. */
  lemma RunSnoc(id: GLuint, events: seq<KeyEvent>, e: KeyEvent)
    ensures Run(id, events + [e]) == NextIconId(Run(id, events), e.key, e.action)
  {
    assert (events + [e])[..|events|] == events;
  }

  /** The last of `j + 1` presses is applied to the state after the first `j`. */
  lemma PressesStep(id: GLuint, key: int, j: nat)
    ensures Run(id, Presses(key, j + 1)) == NextIconId(Run(id, Presses(key, j)), key, GLFW_PRESS)
  {
    RunSnoc(id, Presses(key, j), KeyEvent(key, GLFW_PRESS));
  }

  /** One arrow press after `j` wrapped steps from `x` is the wrap of `j + 1`
      steps. */
  lemma ArrowPressOnWrapped(x: int, j: int)
    ensures NextIconId(WrapUint(x + j), GLFW_KEY_RIGHT, GLFW_PRESS) == WrapUint(x + (j + 1))
    ensures NextIconId(WrapUint(x - j), GLFW_KEY_LEFT, GLFW_PRESS) == WrapUint(x - (j + 1))
  {
    WrapStep(x + j, 1);
    assert x + j + 1 == x + (j + 1);
    WrapStep(x - j, -1);
    assert x - j + -1 == x - (j + 1);
  }

  /** The inductive step of `RightPresses`, from `j` presses to `k = j + 1`. */
  lemma RightPressesStep(id: GLuint, j: nat, k: nat)
    requires k == j + 1
    requires Run(id, Presses(GLFW_KEY_RIGHT, j)) == WrapUint(id as int + j)
    ensures Run(id, Presses(GLFW_KEY_RIGHT, k)) == WrapUint(id as int + k)
  {
    PressesStep(id, GLFW_KEY_RIGHT, j);
    ArrowPressOnWrapped(id as int, j);
  }

  /** The inductive step of `LeftPresses`, from `j` presses to `k = j + 1`. */
  lemma LeftPressesStep(id: GLuint, j: nat, k: nat)
    requires k == j + 1
    requires Run(id, Presses(GLFW_KEY_LEFT, j)) == WrapUint(id as int - j)
    ensures Run(id, Presses(GLFW_KEY_LEFT, k)) == WrapUint(id as int - k)
  {
    PressesStep(id, GLFW_KEY_LEFT, j);
    ArrowPressOnWrapped(id as int, j);
  }

  /** `k` right presses add `k` modulo 2^32. */
  lemma {:induction false} RightPresses(id: GLuint, k: nat)
    ensures Run(id, Presses(GLFW_KEY_RIGHT, k)) == WrapUint(id as int + k)
  {
    if k > 0 {
      var j := k - 1;
      RightPresses(id, j);
      RightPressesStep(id, j, k);
    }
  }

  /** `k` left presses subtract `k` modulo 2^32. */
  lemma {:induction false} LeftPresses(id: GLuint, k: nat)
    ensures Run(id, Presses(GLFW_KEY_LEFT, k)) == WrapUint(id as int - k)
  {
    if k > 0 {
      var j := k - 1;
      LeftPresses(id, j);
      LeftPressesStep(id, j, k);
    }
  }
}
