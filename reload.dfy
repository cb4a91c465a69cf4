/**
 * The configuration-reload goroutine of the watch command
 * (commands/watch.go:90-141).
 *
 * The goroutine creates a file watcher, registers the configuration file,
 * runs the updater once and then loops forever over four kinds of input:
 * a filesystem event carrying an op bitmask, the event channel closing, an
 * error from the watcher, and a ticker fire. The updater reads the file,
 * decodes it as JSON and hands a new AddressFilter to the indexer through
 * SetAddressFilter. Reading and decoding are abstracted as a Load outcome.
 *
 * The pure part (WatchState, Step, Run) is the specification; the class
 * ConfigWatcher holds the indexer's installed filter and the loop's running
 * flag and has one method per input, each proved to follow Step.
 */
module Reload {
  import opened Wrappers
  import opened Filter

  /** fsnotify's Op: a bitmask over uint32. */
  type Op = bv32

  /** fsnotify.Write, the bit 1 << 1. */
  const Write: Op := 2

  /** The other fsnotify op bits: Create, Remove, Rename, Chmod. */
  const Create: Op := 1
  const Remove: Op := 4
  const Rename: Op := 8
  const Chmod: Op := 16

  /**
   * The outcome of one ioutil.ReadFile followed by json.Unmarshal: the read
   * failed; the read succeeded but the file is not syntactically valid
   * JSON; or decoding
   * succeeded and the addresses_filter field holds the given list (an
   * absent field decodes to the empty list).
   */
  datatype Load = ReadFail | ParseFail | Parsed(addresses: seq<string>)

  /** One input taken by the select statement. */
  datatype Input =
    | Event(op: Op, load: Load)
    | EventsClosed
    | WatchError
    | Tick(load: Load)

  /**
   * A snapshot of the watcher: the filter the indexer has installed (None
   * before the first SetAddressFilter), whether the loop still runs, how
   * many times the updater has run, and every filter handed to
   * SetAddressFilter, oldest first.
   */
  datatype WatchState = WatchState(
    installed: Option<AddressFilter>,
    running: bool,
    reloads: nat,
    published: seq<AddressFilter>)

  /** The indexer as the goroutine finds it: nothing installed, loop not started. */
  const Idle: WatchState := WatchState(None, false, 0, [])

  /**
   * The test ev.Op & fsnotify.Write == fsnotify.Write: since Write is the
   * single bit 1, it holds exactly when that bit of the op is set.
   */
  predicate IsWrite(op: Op): (r: bool)
    ensures r <==> (op >> 1) & 1 == 1
  {
    op & Write == Write
  }

  /**
   * The list left in the decode target after Unmarshal and handed to
   * NewAddressFilter. A syntax error leaves the field nil, the empty list,
   * so its filter allows nothing.
   */
  function Decoded(load: Load): (l: seq<string>)
    requires !load.ReadFail?
    ensures load.Parsed? ==> l == load.addresses
    ensures load.ParseFail? ==> forall a :: !NewAddressFilter(l).Allow(a)
  {
    match load
    case ParseFail => []
    case Parsed(l) => l
  }

  /**
   * One run of the updater closure: it never touches the loop's running
   * flag, and it publishes (one filter) exactly when the read succeeded.
   */
  function Updated(s: WatchState, load: Load): (t: WatchState)
    ensures t.running == s.running && t.reloads == s.reloads + 1
    ensures t.published == s.published <==> load.ReadFail?
    ensures s.published <= t.published && |t.published| <= |s.published| + 1
  {
    if load.ReadFail? then s.(reloads := s.reloads + 1)
    else
      var f := NewAddressFilter(Decoded(load));
      s.(installed := Some(f), reloads := s.reloads + 1, published := s.published + [f])
  }

  /**
   * The goroutine up to the loop: creating the watcher or registering the
   * file may fail, and then it returns without loading anything; otherwise
   * it runs the updater once and enters the loop.
   */
  function Start(watcherOk: bool, addOk: bool, load: Load): (t: WatchState)
    ensures t.running <==> watcherOk && addOk
    ensures t.reloads == (if watcherOk && addOk then 1 else 0)
    ensures t.installed.Some? ==> watcherOk && addOk && !load.ReadFail?
  {
    if !watcherOk || !addOk then Idle
    else Updated(Idle, load).(running := true)
  }

  /**
   * One iteration of the select loop. A stopped loop takes no more input;
   * a running one stops exactly on a close or a watcher error, and only
   * ever appends to the publications, at most one at a time.
   */
  function Step(s: WatchState, input: Input): (t: WatchState)
    ensures !s.running ==> t == s
    ensures t.running <==> s.running && !input.EventsClosed? && !input.WatchError?
    ensures s.published <= t.published && |t.published| <= |s.published| + 1
  {
    if !s.running then s
    else
      match input
      case Event(op, load) => if IsWrite(op) then Updated(s, load) else s
      case EventsClosed => s.(running := false)
      case WatchError => s.(running := false)
      case Tick(load) => Updated(s, load)
  }

  /**
   * The loop fed a sequence of inputs in the order the select received
   * them. It is still running at the end exactly when it was running at
   * the start and no input closed the channel or reported an error.
   */
  function Run(s: WatchState, inputs: seq<Input>): (t: WatchState)
    ensures t.running <==> s.running && forall i :: 0 <= i < |inputs| ==> !inputs[i].EventsClosed? && !inputs[i].WatchError?
    decreases |inputs|
  {
    if |inputs| == 0 then s else Run(Step(s, inputs[0]), inputs[1..])
  }

  /**
   * The invariant the watcher keeps: the installed filter is the last one
   * published (and nothing is installed until something is published), and
   * every publication came from a run of the updater.
   */
  ghost predicate Consistent(s: WatchState)
  {
    s.installed == (if s.published == [] then None else Some(s.published[|s.published| - 1]))
    && |s.published| <= s.reloads
  }

  // ---------------------------------------------------------------------
  // The updater's outcomes

  /** A failed read returns early: the updater runs but publishes nothing. */
  lemma ReadFailKeepsFilter(s: WatchState)
    ensures Updated(s, ReadFail).installed == s.installed
    ensures Updated(s, ReadFail).published == s.published
    ensures Updated(s, ReadFail).reloads == s.reloads + 1
  {
  }

  /** A successful decode installs exactly the filter of the decoded list, replacing any previous one. */
  lemma ParsedInstallsList(s: WatchState, l: seq<string>)
    ensures Updated(s, Parsed(l)).installed == Some(NewAddressFilter(l))
    ensures Updated(s, Parsed(l)).published == s.published + [NewAddressFilter(l)]
    ensures forall a :: Updated(s, Parsed(l)).installed.value.Allow(a) <==> a in l
  {
  }

  /**
   * A syntax error does not return: SetAddressFilter still runs, with the
   * empty list, so the installed filter becomes deny-all whatever was
   * installed before.
   */
  lemma ParseFailInstallsDenyAll(s: WatchState, a: string)
    ensures Updated(s, ParseFail).installed.Some?
    ensures !Updated(s, ParseFail).installed.value.Allow(a)
    ensures |Updated(s, ParseFail).published| == |s.published| + 1
  {
  }

  /** The last good filter is lost after a syntax error: an address it allowed is now denied. */
  lemma ParseFailDropsLastGood()
    ensures Step(Start(true, true, Parsed(["f1"])), Tick(ParseFail)).installed.value.Allow("f1") == false
    ensures Start(true, true, Parsed(["f1"])).installed.value.Allow("f1")
  {
  }

  /** Reloading unchanged content installs the same filter again, so every query is answered the same way. */
  lemma ReloadIdempotent(s: WatchState, load: Load)
    ensures Step(Step(s, Tick(load)), Tick(load)).installed == Step(s, Tick(load)).installed
  {
  }

  // ---------------------------------------------------------------------
  // The select dispatch

  /** Events without the Write bit leave the whole state unchanged. */
  lemma NonWriteEventIgnored(s: WatchState, op: Op, load: Load)
    requires !IsWrite(op)
    ensures Step(s, Event(op, load)) == s
  {
  }

  /** A running loop reloads on an event exactly when its op has the Write bit, as a tick would. */
  lemma WriteEventReloads(s: WatchState, op: Op, load: Load)
    requires s.running
    ensures Step(s, Event(op, load)) == (if IsWrite(op) then Step(s, Tick(load)) else s)
  {
  }

  /** Which fsnotify ops reload: Write alone or combined with other bits; never the others alone. */
  lemma WriteBitExamples()
    ensures IsWrite(Write) && IsWrite(Write | Chmod) && IsWrite(Create | Write)
    ensures !IsWrite(Create) && !IsWrite(Remove) && !IsWrite(Rename) && !IsWrite(Chmod)
    ensures !IsWrite(Create | Remove | Rename | Chmod)
  {
  }

  /** A tick on a running loop runs the updater exactly once and keeps the loop running. */
  lemma TickReloadsOnce(s: WatchState, load: Load)
    requires s.running
    ensures Step(s, Tick(load)) == Updated(s, load)
    ensures Step(s, Tick(load)).reloads == s.reloads + 1
    ensures Step(s, Tick(load)).running
  {
  }

  /** A closed event channel or a watcher error stops the loop and changes nothing else. */
  lemma CloseOrErrorStops(s: WatchState)
    ensures Step(s, EventsClosed) == s.(running := false)
    ensures Step(s, WatchError) == s.(running := false)
  {
  }

  // ---------------------------------------------------------------------
  // Whole runs

  /** Once the loop has stopped, no input changes anything: nothing more is ever published. */
  lemma {:induction false} StoppedIsFinal(s: WatchState, inputs: seq<Input>)
    requires !s.running
    ensures Run(s, inputs) == s
    decreases |inputs|
  {
    if |inputs| > 0 {
      StoppedIsFinal(Step(s, inputs[0]), inputs[1..]);
    }
  }

  /** After a close or a watcher error, the installed filter and the publications stay as they were. */
  lemma {:induction false} NothingAfterStop(s: WatchState, stop: Input, inputs: seq<Input>)
    requires stop.EventsClosed? || stop.WatchError?
    ensures Run(s, [stop] + inputs).installed == s.installed
    ensures Run(s, [stop] + inputs).published == s.published
  {
    assert ([stop] + inputs)[1..] == inputs;
    StoppedIsFinal(Step(s, stop), inputs);
  }

  /** Every step keeps the watcher consistent. */
  lemma StepConsistent(s: WatchState, input: Input)
    requires Consistent(s)
    ensures Consistent(Step(s, input))
  {
  }

  /** Whole runs keep the watcher consistent, starting from any start-up. */
  lemma {:induction false} RunConsistent(s: WatchState, inputs: seq<Input>)
    requires Consistent(s)
    ensures Consistent(Run(s, inputs))
    decreases |inputs|
  {
    if |inputs| > 0 {
      StepConsistent(s, inputs[0]);
      RunConsistent(Step(s, inputs[0]), inputs[1..]);
    }
  }

  /** Publications are only ever appended: a run extends the history it starts from. */
  lemma {:induction false} RunExtendsHistory(s: WatchState, inputs: seq<Input>)
    ensures s.published <= Run(s, inputs).published
    ensures s.reloads <= Run(s, inputs).reloads
    decreases |inputs|
  {
    if |inputs| > 0 {
      RunExtendsHistory(Step(s, inputs[0]), inputs[1..]);
    }
  }

  /**
   * If creating the watcher or registering the file fails, the goroutine
   * returns before the initial load, and no filter is ever installed.
   */
  lemma {:induction false} SetupFailureInstallsNothing(watcherOk: bool, addOk: bool, load: Load, inputs: seq<Input>)
    requires !watcherOk || !addOk
    ensures Run(Start(watcherOk, addOk, load), inputs) == Idle
  {
    StoppedIsFinal(Idle, inputs);
  }

  /** Otherwise exactly one reload runs before the first input, and the loop is running. */
  lemma StartLoadsOnce(load: Load)
    ensures Start(true, true, load).running
    ensures Start(true, true, load).reloads == 1
    ensures Start(true, true, load).installed == (if load.ReadFail? then None else Some(NewAddressFilter(Decoded(load))))
    ensures Consistent(Start(true, true, load))
  {
  }

  /**
   * End to end: the file holds ["f1"] at start-up, then is rewritten to
   * ["f2"] and a write event arrives.
   */
  lemma EndToEnd()
    ensures Start(true, true, Parsed(["f1"])).installed.value.Allow("f1")
    ensures !Start(true, true, Parsed(["f1"])).installed.value.Allow("f2")
    ensures Run(Start(true, true, Parsed(["f1"])), [Event(Write, Parsed(["f2"]))]).installed == Some(NewAddressFilter(["f2"]))
    ensures !Run(Start(true, true, Parsed(["f1"])), [Event(Write, Parsed(["f2"]))]).installed.value.Allow("f1")
    ensures Run(Start(true, true, Parsed(["f1"])), [Event(Write, Parsed(["f2"]))]).installed.value.Allow("f2")
  {
    var s := Start(true, true, Parsed(["f1"]));
    var e := Event(Write, Parsed(["f2"]));
    assert Run(s, [e]) == Run(Step(s, e), []);
  }

  // ---------------------------------------------------------------------
  // The updater as evidently intended: a syntax error returns before
  // publishing, just as a failed read does, so the last good filter stays.

  /** The updater with a return after the decode error. */
  function UpdatedIntended(s: WatchState, load: Load): (t: WatchState)
    ensures t.running == s.running && t.reloads == s.reloads + 1
    ensures t.published == s.published <==> !load.Parsed?
  {
    if load.Parsed? then Updated(s, load) else s.(reloads := s.reloads + 1)
  }

  /** One iteration of the select loop, running the intended updater. */
  function StepIntended(s: WatchState, input: Input): (t: WatchState)
    ensures !s.running ==> t == s
    ensures t.running <==> s.running && !input.EventsClosed? && !input.WatchError?
  {
    if !s.running then s
    else
      match input
      case Event(op, load) => if IsWrite(op) then UpdatedIntended(s, load) else s
      case EventsClosed => s.(running := false)
      case WatchError => s.(running := false)
      case Tick(load) => UpdatedIntended(s, load)
  }

  /**
   * With the intended updater, a syntax error leaves the installed filter,
   * the publications and every Allow answer unchanged, whether the reload
   * came from a tick or from a Write event.
   */
  lemma IntendedKeepsLastGood(s: WatchState, op: Op, a: string)
    ensures UpdatedIntended(s, ParseFail).installed == s.installed
    ensures UpdatedIntended(s, ParseFail).published == s.published
    ensures StepIntended(s, Tick(ParseFail)).installed == s.installed
    ensures StepIntended(s, Tick(ParseFail)).published == s.published
    ensures StepIntended(s, Event(op, ParseFail)).installed == s.installed
    ensures StepIntended(s, Event(op, ParseFail)).published == s.published
    ensures s.installed.Some? ==>
      StepIntended(s, Tick(ParseFail)).installed.value.Allow(a) == s.installed.value.Allow(a)
  {
  }

  /** On every other outcome and input, the intended loop behaves exactly as the code does. */
  lemma IntendedAgreesOtherwise(s: WatchState, input: Input)
    requires !(input.Event? && IsWrite(input.op) && input.load.ParseFail?)
    requires !(input.Tick? && input.load.ParseFail?)
    ensures StepIntended(s, input) == Step(s, input)
  {
  }

  /** The scenario of ParseFailDropsLastGood under the intended updater: "f1" stays allowed. */
  lemma IntendedKeepsF1()
    ensures StepIntended(Start(true, true, Parsed(["f1"])), Tick(ParseFail)).installed == Some(NewAddressFilter(["f1"]))
    ensures StepIntended(Start(true, true, Parsed(["f1"])), Tick(ParseFail)).installed.value.Allow("f1")
  {
  }

  // ---------------------------------------------------------------------
  // The goroutine over the indexer's state

  class ConfigWatcher {
    /** The filter installed in the indexer through SetAddressFilter. */
    var installed: Option<AddressFilter>
    /** Whether the select loop is still running. */
    var running: bool
    /** How many times the updater has run. */
    ghost var reloads: nat
    /** Every filter handed to SetAddressFilter, oldest first. */
    ghost var published: seq<AddressFilter>

    ghost function State(): WatchState
      reads this
    {
      WatchState(installed, running, reloads, published)
    }

    /**
     * Bookkeeping invariant only: the one write to installed also appends
     * to published, so it holds by construction; Step does not need it.
     */
    ghost predicate Valid()
      reads this
    {
      Consistent(State())
    }

    /**
     * The goroutine's start-up: watcher creation, registering the file, and
     * the first run of the updater.
     */
    constructor (watcherOk: bool, addOk: bool, load: Load)
      ensures Valid() && State() == Start(watcherOk, addOk, load)
    {
      installed, running, reloads, published := None, false, 0, [];
      new;
      if !watcherOk || !addOk {
        return;
      }
      Updater(load);
      running := true;
    }

    /** The updater closure: read, decode, publish. */
    method Updater(load: Load)
      requires Valid()
      modifies this
      ensures Valid() && State() == Updated(old(State()), load)
    {
      reloads := reloads + 1;
      var addresses: seq<string> := [];
      match load {
        case ReadFail =>
          return;
        case ParseFail =>
        case Parsed(l) =>
          addresses := l;
      }
      var f := NewAddressFilter(addresses);
      installed := Some(f);
      published := published + [f];
    }

    /** A filesystem event arrives on watcher.Events. */
    method OnEvent(op: Op, load: Load)
      requires Valid()
      modifies this
      ensures Valid() && State() == Step(old(State()), Event(op, load))
    {
      if running && op & Write == Write {
        Updater(load);
      }
    }

    /** watcher.Events is closed. */
    method OnEventsClosed()
      requires Valid()
      modifies this
      ensures Valid() && State() == Step(old(State()), EventsClosed)
    {
      running := false;
    }

    /** An error arrives on watcher.Errors. */
    method OnWatchError()
      requires Valid()
      modifies this
      ensures Valid() && State() == Step(old(State()), WatchError)
    {
      running := false;
    }

    /** The ticker fires. */
    method OnTick(load: Load)
      requires Valid()
      modifies this
      ensures Valid() && State() == Step(old(State()), Tick(load))
    {
      if running {
        Updater(load);
      }
    }

    /**
     * The for-select loop: takes inputs in order until they run out or the
     * loop returns, and reports how many it took.
     */
    method Loop(inputs: seq<Input>) returns (taken: nat)
      requires Valid()
      modifies this
      ensures Valid() && State() == Run(old(State()), inputs)
      ensures taken <= |inputs|
      ensures taken < |inputs| ==> !running
    {
      taken := 0;
      while taken < |inputs| && running
        invariant taken <= |inputs|
        invariant Valid()
        invariant Run(old(State()), inputs) == Run(State(), inputs[taken..])
        decreases |inputs| - taken
      {
        assert inputs[taken..][1..] == inputs[taken + 1..];
        match inputs[taken] {
          case Event(op, load) => OnEvent(op, load);
          case EventsClosed => OnEventsClosed();
          case WatchError => OnWatchError();
          case Tick(load) => OnTick(load);
        }
        taken := taken + 1;
      }
      if taken < |inputs| {
        StoppedIsFinal(State(), inputs[taken..]);
      }
    }
  }
}
