/**
 * The undo guard of js/ctrlz.js: a global keydown listener that turns
 * Ctrl+Z into a `ctrlZPressed` message for the hosted application, except
 * when a Trix rich-text editor on the page should handle the undo itself.
 *
 * The page is an input: each press says whether a `trix-editor` element is
 * present and, if so, its current value.
 */
module UndoGuard {
  import opened Wrappers
  import opened Ports

  /** The key code the listener compares against (the letter Z). */
  const UndoKeyCode: int := 90

  /** The keydown filter: the control key is held and the key is Z. */
  predicate IsUndoKey(ctrlKey: bool, keyCode: int) {
    ctrlKey && keyCode == UndoKeyCode
  }

  /**
   * Ctrl+Z is the undo key; the Ctrl key's own keydown (code 17, with the
   * control key held), Ctrl with any other key, and Z alone are not.
   */
  lemma UndoKeyOnlyCtrlZ()
    ensures IsUndoKey(true, 90)
    ensures !IsUndoKey(true, 17) && !IsUndoKey(false, 90)
    ensures forall keyCode :: keyCode != 90 ==> !IsUndoKey(true, keyCode)
  {
  }

  /** JavaScript truthiness of a string: only the empty string is falsy. */
  predicate Truthy(s: string) {
    s != []
  }

  /** One Ctrl+Z press as the guard observes the page. */
  datatype KeyPress = KeyPress(hasTrix: bool, content: string)

  /** What a press does: whether the message is sent, and the content remembered afterwards. */
  datatype Outcome = Outcome(forwarded: bool, previous: Option<string>)

  /**
   * The decision of the callback that `start` registers, together with the
   * update `noTrixContentTwice` makes to the remembered content
   * (`None` is the initial `undefined`).
   */
  function Step(previous: Option<string>, press: KeyPress): (o: Outcome)
    // no editor: always forwarded, and nothing is remembered
    ensures !press.hasTrix ==> o.forwarded && o.previous == previous
    // with an editor, its content is remembered whichever branch decides
    ensures press.hasTrix ==> o.previous == Some(press.content)
    // first press with an editor: forwarded exactly when the editor is empty
    ensures press.hasTrix && previous.None? ==> (o.forwarded <==> press.content == "")
    // later presses: forwarded exactly when both this and the remembered content are empty
    ensures press.hasTrix && previous.Some? ==> (o.forwarded <==> press.content == "" && previous.value == "")
    // so a press is suppressed only when the editor is there and holds text now or did last time
    ensures !o.forwarded <==> press.hasTrix && (press.content != "" || (previous.Some? && previous.value != ""))
  {
    if !press.hasTrix then Outcome(true, previous)
    else
      var current := press.content;
      match previous
      case None => Outcome(!Truthy(current), Some(current))
      case Some(p) => Outcome(!Truthy(current) && !Truthy(p), Some(current))
  }

  /** What a run of presses does, starting from a remembered content. */
  datatype Session = Session(forwarded: seq<bool>, previous: Option<string>)

  function Replay(previous: Option<string>, presses: seq<KeyPress>): (s: Session)
    ensures |s.forwarded| == |presses|
    decreases |presses|
  {
    if presses == [] then Session([], previous)
    else
      var o := Step(previous, presses[0]);
      var rest := Replay(o.previous, presses[1..]);
      Session([o.forwarded] + rest.forwarded, rest.previous)
  }

  /** The content of the editor at the last press that found one, if any did. */
  function LastEditorContent(previous: Option<string>, presses: seq<KeyPress>): Option<string> {
    if presses == [] then previous
    else if presses[|presses| - 1].hasTrix then Some(presses[|presses| - 1].content)
    else LastEditorContent(previous, presses[..|presses| - 1])
  }

  lemma {:induction false} LastEditorContentAppend(previous: Option<string>, a: seq<KeyPress>, b: seq<KeyPress>)
    ensures LastEditorContent(LastEditorContent(previous, a), b) == LastEditorContent(previous, a + b)
  {
    if b != [] {
      assert (a + b)[..|a + b| - 1] == a + b[..|b| - 1];
      LastEditorContentAppend(previous, a, b[..|b| - 1]);
    } else {
      assert a + b == a;
    }
  }

  /** After any run of presses, the guard remembers the editor content of the last press that saw an editor. */
  lemma {:induction false} ReplayRemembersLastEditorContent(previous: Option<string>, presses: seq<KeyPress>)
    ensures Replay(previous, presses).previous == LastEditorContent(previous, presses)
    decreases |presses|
  {
    if presses != [] {
      var next := Step(previous, presses[0]).previous;
      ReplayRemembersLastEditorContent(next, presses[1..]);
      assert next == LastEditorContent(previous, presses[..1]);
      LastEditorContentAppend(previous, presses[..1], presses[1..]);
      assert presses[..1] + presses[1..] == presses;
    }
  }

  /** Without an editor on the page, every press is forwarded and the remembered content never changes. */
  lemma {:induction false} NoEditorForwardsEveryPress(previous: Option<string>, presses: seq<KeyPress>)
    requires forall k :: 0 <= k < |presses| ==> !presses[k].hasTrix
    ensures forall k :: 0 <= k < |presses| ==> Replay(previous, presses).forwarded[k]
    ensures Replay(previous, presses).previous == previous
  {
    if presses != [] {
      NoEditorForwardsEveryPress(previous, presses[1..]);
    }
  }

  /**
   * Consecutive presses on an empty editor are all forwarded, however many
   * there are, once nothing or an empty content is remembered: the guard
   * never suppresses a second empty press.
   */
  lemma {:induction false} EmptyEditorPressesAllForward(previous: Option<string>, presses: seq<KeyPress>)
    requires previous == None || previous == Some("")
    requires forall k :: 0 <= k < |presses| ==> presses[k] == KeyPress(true, "")
    ensures forall k :: 0 <= k < |presses| ==> Replay(previous, presses).forwarded[k]
    decreases |presses|
  {
    if presses != [] {
      EmptyEditorPressesAllForward(Some(""), presses[1..]);
    }
  }

  /** Two presses on an empty editor, the first ever: both send `ctrlZPressed`. */
  lemma TwoEmptyPressesBothForward()
    ensures Replay(None, [KeyPress(true, ""), KeyPress(true, "")]).forwarded == [true, true]
  {
    EmptyEditorPressesAllForward(None, [KeyPress(true, ""), KeyPress(true, "")]);
  }

  /** Text in the editor, then empty, then empty again: suppressed, suppressed, forwarded. */
  lemma TextThenTwoEmptyPresses(previous: Option<string>, text: string)
    requires text != ""
    ensures Replay(previous, [KeyPress(true, text), KeyPress(true, ""), KeyPress(true, "")]).forwarded
            == [false, false, true]
  {
    var presses := [KeyPress(true, text), KeyPress(true, ""), KeyPress(true, "")];
    var last := [KeyPress(true, "")];
    assert presses[1..] == [KeyPress(true, "")] + last && last[1..] == [];
    var third := Replay(Some(""), last);
    assert third.forwarded == [true];
    var second := Replay(Some(text), presses[1..]);
    assert second.forwarded == [false] + third.forwarded;
  }

  /** The guard object: `previousCall` is `_previousCall`, `None` while it is still undefined. */
  class CtrlZ {
    var previousCall: Option<string>

    constructor ()
      ensures previousCall == None
    {
      previousCall := None;
    }

    /** noTrixContentTwice, called only while an editor is present; it rewrites the field on every branch. */
    method NoTrixContentTwice(current: string) returns (r: bool)
      modifies this
      ensures r == Step(old(previousCall), KeyPress(true, current)).forwarded
      ensures previousCall == Some(current)
    {
      var previous := previousCall;
      if previous.None? {
        previousCall := Some(current);
        return !Truthy(current);
      }
      if !Truthy(current) && !Truthy(previous.value) {
        previousCall := Some(current);
        return true;
      }
      previousCall := Some(current);
      return false;
    }

    /** The callback `start` registers: the messages one Ctrl+Z press sends. */
    method Press(hasTrix: bool, content: string) returns (sent: seq<PortMessage>)
      modifies this
      ensures sent == if Step(old(previousCall), KeyPress(hasTrix, content)).forwarded then [CtrlZPressed] else []
      ensures previousCall == Step(old(previousCall), KeyPress(hasTrix, content)).previous
    {
      sent := [];
      if hasTrix {
        var ok := NoTrixContentTwice(content);
        if ok {
          sent := sent + [CtrlZPressed];
        }
      } else {
        sent := sent + [CtrlZPressed];
      }
    }

    /** The keydown listener `onCtrlZ` installs: any key event sends at most one message, and only Ctrl+Z one. */
    method KeyDown(ctrlKey: bool, keyCode: int, hasTrix: bool, content: string) returns (sent: seq<PortMessage>)
      modifies this
      ensures |sent| <= 1 && (sent != [] ==> sent == [CtrlZPressed] && ctrlKey && keyCode == 90)
      ensures !IsUndoKey(ctrlKey, keyCode) ==> sent == [] && previousCall == old(previousCall)
      ensures IsUndoKey(ctrlKey, keyCode) ==>
                (sent != [] <==> Step(old(previousCall), KeyPress(hasTrix, content)).forwarded)
                && previousCall == Step(old(previousCall), KeyPress(hasTrix, content)).previous
    {
      sent := [];
      if IsUndoKey(ctrlKey, keyCode) {
        sent := Press(hasTrix, content);
      }
    }
  }
}
