/**
 Copied codes and their timed removal: the window writes a code to the system clipboard
 and wipes it 45 seconds later, unless something else has been copied since.
 */
module Clipboard {
  import opened Bytes

  const KEEP_SECONDS: real := 45.0

  /** Who wrote the clipboard last. */
  datatype Writer = Nobody | Window(code: string, at: real) | Wiper | Other

  /** The system clipboard, the window's pending wipe, and the last writer. */
  datatype State = State(text: string, clearAt: Option<(string, real)>, writer: Writer)

  datatype Action =
    | Copy(code: string, now: real)
    | Tick(now: real)
    | OtherWrites(text: string)

  function Copied(s: State, code: string, now: real): State {
    State(code, Some((code, now + KEEP_SECONDS)), Window(code, now))
  }

  function Ticked(s: State, now: real): State {
    match s.clearAt
    case None => s
    case Some((code, at)) =>
      if now < at then s
      else if s.text == code then State("", None, Wiper)
      else s.(clearAt := None)
  }

  function Step(s: State, a: Action): State {
    match a
    case Copy(code, now) => Copied(s, code, now)
    case Tick(now) => Ticked(s, now)
    case OtherWrites(text) => s.(text := text, writer := Other)
  }

  class App {
    var clipboard: string
    var clipboardClearAt: Option<(string, real)>
    ghost var writer: Writer

    ghost function View(): State
      reads this
    {
      State(clipboard, clipboardClearAt, writer)
    }

    constructor (text: string)
      ensures View() == State(text, None, Nobody)
    {
      clipboard, clipboardClearAt, writer := text, None, Nobody;
    }

    method CopyCode(code: string, now: real)
      modifies this
      ensures View() == Copied(old(View()), code, now)
    {
      clipboard := code;
      clipboardClearAt := Some((code, now + KEEP_SECONDS));
      writer := Window(code, now);
    }

    method MaybeClearClipboard(now: real)
      modifies this
      ensures View() == Ticked(old(View()), now)
    {
      if clipboardClearAt.Some? {
        var (code, at) := clipboardClearAt.value;
        if now >= at {
          if clipboard == code {
            clipboard := "";
            writer := Wiper;
          }
          clipboardClearAt := None;
        }
      }
    }
  }

  // -------------------------------------------------------------- whole runs

  function Start(text: string): State {
    State(text, None, Nobody)
  }

  /** The state after `run`, in whatever order copies, ticks and other programs' writes come. */
  function After(s: State, run: seq<Action>): State {
    if run == [] then s else Step(After(s, run[..|run| - 1]), run[|run| - 1])
  }

  /** The last code the window copied in `run`, and when. */
  function LastCopy(run: seq<Action>): Option<(string, real)> {
    if run == [] then None
    else
      var last := run[|run| - 1];
      if last.Copy? then Some((last.code, last.now)) else LastCopy(run[..|run| - 1])
  }

  /**
   While the window is the last writer its code is on the clipboard and a wipe 45 seconds
   after the copy is pending; a pending wipe is always that of the last copy.
   */
  lemma {:induction false} WipeIsPending(text: string, run: seq<Action>)
    ensures var s := After(Start(text), run);
            s.writer.Window? ==>
              s.text == s.writer.code && s.clearAt == Some((s.writer.code, s.writer.at + KEEP_SECONDS)) &&
              LastCopy(run) == Some((s.writer.code, s.writer.at))
    ensures var s := After(Start(text), run);
            s.clearAt.Some? ==>
              LastCopy(run).Some? &&
              s.clearAt.value == (LastCopy(run).value.0, LastCopy(run).value.1 + KEEP_SECONDS)
  {
    if run != [] {
      WipeIsPending(text, run[..|run| - 1]);
    }
  }

  /** The first tick 45 seconds after the copy wipes the code, and no earlier tick touches it. */
  lemma TickWipes(text: string, run: seq<Action>, now: real)
    requires After(Start(text), run).writer.Window?
    ensures var s := After(Start(text), run);
            if now >= s.writer.at + KEEP_SECONDS then Ticked(s, now) == State("", None, Wiper) else Ticked(s, now) == s
  {
    WipeIsPending(text, run);
  }

  /** A tick never removes anything but the code copied last, and not before its 45 seconds are over. */
  lemma OnlyTheCodeIsWiped(text: string, run: seq<Action>, now: real)
    requires Ticked(After(Start(text), run), now).text != After(Start(text), run).text
    ensures LastCopy(run).Some?
    ensures var (code, at) := LastCopy(run).value;
            After(Start(text), run).text == code && now >= at + KEEP_SECONDS
  {
    WipeIsPending(text, run);
  }

  /** A copy writes its code and sets its removal 45 seconds later; a tick before a removal's time changes nothing. */
  lemma CopyAndWait(s: State, code: string, now: real)
    ensures var t := Copied(s, code, now);
            t.text == code && t.clearAt == Some((code, now + 45.0)) && t.writer == Window(code, now)
    ensures s.clearAt.None? || now < s.clearAt.value.1 ==> Ticked(s, now) == s
  {
  }

  /** A tick at or after that time leaves no removal pending, and empties the clipboard only of that very code. */
  lemma DueTick(s: State, now: real)
    requires s.clearAt.Some? && now >= s.clearAt.value.1
    ensures Ticked(s, now).clearAt == None
    ensures Ticked(s, now).text == if s.text == s.clearAt.value.0 then "" else s.text
  {
  }
}
