/**
 * A file input element on the page, as the content script sees it: its
 * selected files, the listeners and setter wrap that attachment installs,
 * the events dispatched on it, the delayed events still pending and the
 * `logActivity` messages sent on its behalf.
 *
 * `handleFileInputChange` re-enters itself: assigning `input.files` runs the
 * wrapped setter, and dispatching `input`/`change` runs the listeners, both
 * of which call the handler again. The three methods below mirror that call
 * structure, and they terminate because a processed collection holds no
 * supported file (`Rebinder.ProcessedHasNoMatch`).
 */
module Control {
  import opened Strings
  import opened Extensions
  import opened Files
  import opened Rebinder

  /** The two event types the content script listens to and dispatches. */
  datatype EventKind = Input | Change

  /** The observable data of one file input. */
  datatype State = State(
    files: seq<File>,
    dispatched: seq<EventKind>,
    scheduled: seq<EventKind>,
    sent: seq<seq<RenameRecord>>)

  /**
   * The effect of one `handleFileInputChange` call, re-entrant calls
   * included. Without a supported file nothing happens; otherwise the
   * collection is replaced by its processed form, the records are sent,
   * `input` and `change` are dispatched and a delayed `input` is scheduled.
   */
  function AfterChange(s: State): State
  {
    if !AnyMatch(s.files) then s
    else State(Processed(s.files), s.dispatched + [Input, Change], s.scheduled + [Input],
               s.sent + [Records(s.files)])
  }

  /**
   * Assigning `value` to `input.files`: the original setter stores the
   * value, and a wrapped setter then runs the handler when the value is
   * non-empty.
   */
  function AfterAssign(s: State, value: seq<File>, wrapped: bool): State
  {
    var t := s.(files := value);
    if wrapped && |value| > 0 then AfterChange(t) else t
  }

  /** Dispatching `ev`: it is logged, and the handler runs when a listener for it is installed. */
  function AfterDispatch(s: State, ev: EventKind, listening: bool): State
  {
    var t := s.(dispatched := s.dispatched + [ev]);
    if listening then AfterChange(t) else t
  }

  /**
   * The handler's observable effect: nothing at all when no file is
   * supported (in particular when the selection is empty); otherwise the
   * processed collection, one message holding the records, and the event
   * sequence `input`, `change` followed by one pending `input`.
   */
  lemma ChangeSpec(s: State)
    ensures var r := AfterChange(s);
      && (!AnyMatch(s.files) <==> r == s)
      && (s.files == [] ==> r == s)
      && (AnyMatch(s.files) ==>
            && r.files == Processed(s.files)
            && r.sent == s.sent + [Records(s.files)] && Records(s.files) != []
            && r.dispatched == s.dispatched + [Input, Change]
            && r.scheduled == s.scheduled + [Input])
  {
    var r := AfterChange(s);
    RecordsCount(s.files);
    if AnyMatch(s.files) {
      assert |r.dispatched| == |s.dispatched| + 2;
    }
  }

  /**
   * The handler is idempotent: run on its own result it changes nothing,
   * which is why the re-entrant calls through the setter and the listeners
   * are no-ops.
   */
  lemma ChangeIdempotent(s: State)
    ensures AfterChange(AfterChange(s)) == AfterChange(s)
  {
    if AnyMatch(s.files) {
      ProcessedHasNoMatch(s.files);
    }
  }

  /** After the handler no file in the collection is supported any more. */
  lemma ChangeLeavesNoMatch(s: State)
    ensures !AnyMatch(AfterChange(s).files)
  {
    if AnyMatch(s.files) {
      ProcessedHasNoMatch(s.files);
    }
  }

  /**
   * The wrapped setter always stores the value first; it runs the handler
   * only for a non-empty value, and an empty or unwrapped assignment just
   * stores it.
   */
  lemma AssignSpec(s: State, value: seq<File>, wrapped: bool)
    ensures var r := AfterAssign(s, value, wrapped);
      && (wrapped && |value| > 0 ==> r == AfterChange(s.(files := value)))
      && (!wrapped || value == [] ==> r == s.(files := value))
      && (!AnyMatch(value) ==> r == s.(files := value))
  {
  }

  /**
   * A selection made by the user on an attached input: `input` runs the
   * handler, which renames and re-dispatches; the browser's own `change`
   * that follows finds nothing left to do. Exactly one message is sent.
   */
  lemma UserSelectAttached(s: State, chosen: seq<File>)
    ensures var r := AfterDispatch(AfterDispatch(s.(files := chosen), Input, true), Change, true);
      && r.files == Processed(chosen)
      && (AnyMatch(chosen) ==>
            && r.sent == s.sent + [Records(chosen)]
            && r.dispatched == s.dispatched + [Input, Input, Change, Change]
            && r.scheduled == s.scheduled + [Input])
      && (!AnyMatch(chosen) ==>
            r == State(chosen, s.dispatched + [Input, Change], s.scheduled, s.sent))
  {
    if AnyMatch(chosen) {
      UserSelectMatched(s, chosen);
    } else {
      NoMatchProcessed(chosen);
    }
  }

  lemma UserSelectMatched(s: State, chosen: seq<File>)
    requires AnyMatch(chosen)
    ensures var r := AfterDispatch(AfterDispatch(s.(files := chosen), Input, true), Change, true);
      r == State(Processed(chosen), s.dispatched + [Input, Input, Change, Change], s.scheduled + [Input],
                 s.sent + [Records(chosen)])
  {
    var a := State(chosen, s.dispatched + [Input], s.scheduled, s.sent);
    var b := AfterChange(a);
    assert b == State(Processed(chosen), a.dispatched + [Input, Change], s.scheduled + [Input],
                      s.sent + [Records(chosen)]);
    ChangeLeavesNoMatch(a);
    assert a.dispatched + [Input, Change] + [Change] == s.dispatched + [Input, Input, Change, Change];
  }

  /** Without a supported file, processing changes nothing. */
  lemma NoMatchProcessed(files: seq<File>)
    requires !AnyMatch(files)
    ensures Processed(files) == files
  {
  }

  /** A selection on an input that was never attached is left alone and nothing is sent. */
  lemma UserSelectDetached(s: State, chosen: seq<File>)
    ensures var r := AfterDispatch(AfterDispatch(s.(files := chosen), Input, false), Change, false);
      r == State(chosen, s.dispatched + [Input, Change], s.scheduled, s.sent)
  {
  }

  /**
   * The delayed `input` event fires on a collection that has already been
   * processed, so it only adds the event to the log.
   */
  lemma DelayedInputHarmless(s: State, listening: bool)
    ensures var r := AfterChange(s);
      AfterDispatch(r, Input, listening) == r.(dispatched := r.dispatched + [Input])
  {
    var r := AfterChange(s);
    ChangeLeavesNoMatch(s);
    ChangeSpec(r.(dispatched := r.dispatched + [Input]));
  }

  /**
   * One file input element. `attached` is `dataset.codeUploaderAttached`;
   * `hasFilesSetter` says whether the platform exposes a `files` setter
   * that attachment can wrap.
   */
  class FileInput {
    var files: seq<File>
    var attached: bool
    var listeners: set<EventKind>
    var setterWrapped: bool
    var dispatched: seq<EventKind>
    var scheduled: seq<EventKind>
    var sent: seq<seq<RenameRecord>>
    const hasFilesSetter: bool

    /** Whatever is attached is attached completely, and nothing is attached otherwise. */
    predicate Valid()
      reads this
    {
      && (attached ==> listeners == {Input, Change} && setterWrapped == hasFilesSetter)
      && (!attached ==> listeners == {} && !setterWrapped)
    }

    /** The data the content script reads and writes. */
    function Snapshot(): State
      reads this
    {
      State(files, dispatched, scheduled, sent)
    }

    /** A fresh, empty, unattached input. */
    constructor (hasSetter: bool)
      ensures Valid() && !attached
      ensures Snapshot() == State([], [], [], [])
      ensures hasFilesSetter == hasSetter
    {
      files, attached, listeners, setterWrapped := [], false, {}, false;
      dispatched, scheduled, sent := [], [], [];
      hasFilesSetter := hasSetter;
    }

    /**
     * `handleFileInputChange`: when a file is supported, replace the
     * collection (which re-enters through the setter), send the records,
     * dispatch `input` and `change` (which re-enter through the listeners)
     * and schedule the delayed `input`.
     */
    method HandleChange()
      modifies this
      decreases MatchCount(files), 0
      ensures Snapshot() == AfterChange(old(Snapshot()))
      ensures attached == old(attached) && listeners == old(listeners)
      ensures setterWrapped == old(setterWrapped)
    {
      if |files| == 0 {
        return;
      }
      var processed, modified, records := Rebind(files);
      if modified {
        ghost var s := Snapshot();
        AnyMatchIffCount(files);
        ProcessedHasNoMatch(files);
        RecordsCount(files);
        AssignFiles(processed);
        if |records| > 0 {
          sent := sent + [records];
        }
        Dispatch(Input);
        Dispatch(Change);
        scheduled := scheduled + [Input];
        ghost var t := s.(files := processed);
        assert !AnyMatch(t.files);
      }
    }

    /** `input.files = value`, through the wrapped setter when attachment installed one. */
    method AssignFiles(value: seq<File>)
      modifies this
      decreases MatchCount(value), 1
      ensures Snapshot() == AfterAssign(old(Snapshot()), value, setterWrapped)
      ensures attached == old(attached) && listeners == old(listeners)
      ensures setterWrapped == old(setterWrapped)
    {
      files := value;
      if setterWrapped && |value| > 0 {
        HandleChange();
      }
    }

    /** `input.dispatchEvent(new Event(ev))`: logged, then handled when listened to. */
    method Dispatch(ev: EventKind)
      modifies this
      decreases MatchCount(files), 1
      ensures Snapshot() == AfterDispatch(old(Snapshot()), ev, ev in listeners)
      ensures attached == old(attached) && listeners == old(listeners)
      ensures setterWrapped == old(setterWrapped)
    {
      dispatched := dispatched + [ev];
      if ev in listeners {
        HandleChange();
      }
    }

    /**
     * The once-only attachment: unless already marked, install the `change`
     * and `input` listeners, wrap the `files` setter when there is one, and
     * mark the input. An input already marked is left exactly as it is.
     */
    method Attach()
      requires Valid()
      modifies this
      ensures Valid() && attached
      ensures old(attached) ==> unchanged(this)
      ensures Snapshot() == old(Snapshot())
    {
      if !attached {
        listeners := listeners + {Change};
        listeners := listeners + {Input};
        if hasFilesSetter {
          setterWrapped := true;
        }
        attached := true;
      }
    }

    /** The user picks `chosen`: the browser stores it and fires `input`, then `change`. */
    method UserSelect(chosen: seq<File>)
      modifies this
      ensures Snapshot() == AfterDispatch(AfterDispatch(old(Snapshot()).(files := chosen), Input, Input in listeners),
                                          Change, Change in listeners)
      ensures attached == old(attached) && listeners == old(listeners)
      ensures setterWrapped == old(setterWrapped)
    {
      files := chosen;
      Dispatch(Input);
      Dispatch(Change);
    }

    /** The oldest pending timeout fires and dispatches its event; with none pending nothing happens. */
    method RunTimer()
      modifies this
      ensures old(scheduled) == [] ==> unchanged(this)
      ensures old(scheduled) != [] ==>
        Snapshot() == AfterDispatch(old(Snapshot()).(scheduled := old(scheduled)[1..]), old(scheduled)[0],
                                    old(scheduled)[0] in listeners)
      ensures attached == old(attached) && listeners == old(listeners)
      ensures setterWrapped == old(setterWrapped)
    {
      if scheduled != [] {
        var ev := scheduled[0];
        scheduled := scheduled[1..];
        Dispatch(ev);
      }
    }
  }

  /** `test.py` picked by the user on an attached input is uploaded as `test.txt`, with one record. */
  method SelectTestPy(content: seq<byte>, time: int) returns (files: seq<File>, sent: seq<seq<RenameRecord>>)
    ensures files == [File(content, "test.txt", time, "text/plain")]
    ensures sent == [[RenameRecord("test.py", "test.txt")]]
  {
    var input := new FileInput(true);
    input.Attach();
    var f := File(content, "test.py", time, "text/x-python");
    TestPyRenamed(content, time);
    UserSelectAttached(input.Snapshot(), [f]);
    input.UserSelect([f]);
    files, sent := input.files, input.sent;
  }

  /** A page script assigning `test.js` to an attached input ends up with `test.txt`. */
  method AssignTestJs(content: seq<byte>, time: int) returns (files: seq<File>, sent: seq<seq<RenameRecord>>)
    ensures files == [File(content, "test.txt", time, "text/plain")]
    ensures sent == [[RenameRecord("test.js", "test.txt")]]
  {
    var input := new FileInput(true);
    input.Attach();
    var f := File(content, "test.js", time, "application/javascript");
    TestJsRenamed(content, time);
    input.AssignFiles([f]);
    files, sent := input.files, input.sent;
  }

  lemma TestPyRenamed(content: seq<byte>, time: int)
    ensures var f := File(content, "test.py", time, "text/x-python");
      && AnyMatch([f])
      && Processed([f]) == [File(content, "test.txt", time, "text/plain")]
      && Records([f]) == [RenameRecord("test.py", "test.txt")]
  {
    TestPyFile(content, time);
    SingleFile(File(content, "test.py", time, "text/x-python"));
  }

  lemma TestPyFile(content: seq<byte>, time: int)
    ensures IsSupported("test.py")
    ensures RenameFileToTxt(File(content, "test.py", time, "text/x-python"))
         == File(content, "test.txt", time, "text/plain")
  {
    NameAt("test.py", 4);
    assert Lower(".py") == ".py";
    PySupported();
    RenameTestPy(content, time);
  }

  lemma TestJsRenamed(content: seq<byte>, time: int)
    ensures var f := File(content, "test.js", time, "application/javascript");
      && AnyMatch([f])
      && Processed([f]) == [File(content, "test.txt", time, "text/plain")]
      && Records([f]) == [RenameRecord("test.js", "test.txt")]
  {
    TestJsFile(content, time);
    SingleFile(File(content, "test.js", time, "application/javascript"));
  }

  lemma TestJsFile(content: seq<byte>, time: int)
    ensures IsSupported("test.js")
    ensures RenameFileToTxt(File(content, "test.js", time, "application/javascript"))
         == File(content, "test.txt", time, "text/plain")
  {
    TestJsName();
    assert "test" + ".txt" == "test.txt";
  }

  lemma TestJsName()
    ensures IsSupported("test.js") && BaseName("test.js") == "test"
  {
    NameAt("test.js", 4);
    assert Lower(".js") == ".js";
    JsSupported();
    assert "test.js"[..4] == "test";
  }

  lemma PySupported()
    ensures ".py" in Supported
  {
  }

  lemma JsSupported()
    ensures ".js" in Supported
  {
  }

  /** A one-file selection: processed, matched and recorded by that file alone. */
  lemma SingleFile(f: File)
    ensures Processed([f]) == [Process(f)]
    ensures AnyMatch([f]) == IsSupported(f.name)
    ensures Records([f]) == RecordOf(f)
  {
    RecordsSingle(f);
    assert [f][0] == f;
  }
}
