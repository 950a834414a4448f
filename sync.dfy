/**
 * The sync engine of one open document: it hydrates the editor from the
 * stored content once, and afterwards turns every change notification that
 * carries dirty nodes into a debounced save of the latest editor state.
 *
 * Time is a logical clock advanced by `Elapsed` events; the debounce is a
 * trailing timer: each call restarts a 1000 ms quiet period and remembers
 * its argument, and when a quiet period runs out the last argument is saved.
 */
module Sync {
  import opened Wrappers
  import opened Document

  /** The debounce's quiet period, in milliseconds. */
  const QuietPeriod: nat := 1000

  /** Key of the root node, which a hydrating update always marks dirty. */
  const RootKey: string := "root"

  /**
   * One plugin instance's fixed inputs: the file it edits, the HTML parser
   * (from a wrapped string to nodes) and the HTML serializer of the editor
   * library, which are not part of the model and enter as functions.
   */
  datatype Config = Config(fileName: string, parse: string -> seq<Node>, render: seq<Node> -> string)

  /** A call of the update-file mutation. */
  datatype SaveRequest = SaveRequest(filename: string, content: string)

  datatype SyncState = SyncState(
    editor: EditorState,            // the editor the plugin hydrates
    initialized: bool,              // the hydrate-once flag
    now: nat,                       // the logical clock
    pending: Option<EditorState>,   // the argument of a debounced save not yet run
    deadline: nat,                  // when the pending save runs
    saves: seq<SaveRequest>)        // every save issued, in order

  datatype Event =
    | ContentArrived(content: Option<string>)      // the file query produced (or lost) content
    | Updated(dirtyElements: set<string>, dirtyLeaves: set<string>, state: EditorState)
    | Elapsed(ms: nat)

  function Initial(editor: EditorState): SyncState
  {
    SyncState(editor, false, 0, None, 0, [])
  }

  /** Content counts as present when it is there and not the empty string. */
  predicate Truthy(content: Option<string>)
  {
    content.Some? && content.value != ""
  }

  /** The string the HTML parser is given: the content inside a body element. */
  function Wrap(content: string): string
  {
    "<body>" + content + "</body>"
  }

  /** Whether an update carries any dirty node. */
  predicate HasChanges(dirtyElements: set<string>, dirtyLeaves: set<string>)
  {
    |dirtyElements| > 0 || |dirtyLeaves| > 0
  }

  /**
   * The update listener: before hydration it does nothing; afterwards an
   * update with dirty nodes (re)starts the quiet period with its editor state
   * as the save's argument, and an update without any leaves everything as is.
   */
  function Listen(s: SyncState, dirtyElements: set<string>, dirtyLeaves: set<string>, state: EditorState): SyncState
  {
    if !s.initialized then s
    else if HasChanges(dirtyElements, dirtyLeaves) then s.(pending := Some(state), deadline := s.now + QuietPeriod)
    else s
  }

  /**
   * The hydrating update: the root's children are replaced by the nodes
   * parsed from the wrapped content, the flag is set inside the same update,
   * and that update's own notification (the root is dirty) then reaches the
   * listener with the flag already set.
   */
  function Hydrate(cfg: Config, s: SyncState, content: string): (r: SyncState)
    ensures r.initialized
    ensures r.editor == EditorState(cfg.parse(Wrap(content)), NoSelection)
    ensures r.pending == Some(r.editor) && r.deadline == s.now + QuietPeriod
    ensures r.now == s.now && r.saves == s.saves
  {
    var loaded := EditorState(cfg.parse(Wrap(content)), NoSelection);
    var s1 := s.(editor := loaded, initialized := true);
    Listen(s1, {RootKey}, {}, loaded)
  }

  /** Whether an event hydrates the editor in state `s`. */
  predicate Hydrates(s: SyncState, e: Event)
  {
    e.ContentArrived? && Truthy(e.content) && !s.initialized
  }

  /** One event. */
  function Step(cfg: Config, s: SyncState, e: Event): SyncState
  {
    match e
    case ContentArrived(content) =>
      if Truthy(content) && !s.initialized then Hydrate(cfg, s, content.value) else s
    case Updated(dirtyElements, dirtyLeaves, state) =>
      Listen(s, dirtyElements, dirtyLeaves, state)
    case Elapsed(ms) =>
      var t := s.now + ms;
      if s.pending.Some? && s.deadline <= t then
        s.(now := t, pending := None,
           saves := s.saves + [SaveRequest(cfg.fileName, cfg.render(s.pending.value.nodes))])
      else s.(now := t)
  }

  /** A sequence of events, in order. */
  function Run(cfg: Config, s: SyncState, es: seq<Event>): SyncState
    decreases |es|
  {
    if es == [] then s else Run(cfg, Step(cfg, s, es[0]), es[1..])
  }

  /** How many events of `es` hydrate the editor when run from `s`. */
  function Hydrations(cfg: Config, s: SyncState, es: seq<Event>): nat
    decreases |es|
  {
    if es == [] then 0
    else (if Hydrates(s, es[0]) then 1 else 0) + Hydrations(cfg, Step(cfg, s, es[0]), es[1..])
  }

  /** A pending save exists only after hydration and always lies in the future. */
  predicate Inv(s: SyncState)
  {
    s.pending.Some? ==> s.initialized && s.now < s.deadline
  }

  lemma StepInv(cfg: Config, s: SyncState, e: Event)
    requires Inv(s)
    ensures Inv(Step(cfg, s, e))
    ensures s.initialized ==> Step(cfg, s, e).initialized
  {
  }

  /** The flag, once set, stays set. */
  lemma {:induction false} InitializedStays(cfg: Config, s: SyncState, es: seq<Event>)
    requires s.initialized
    ensures Run(cfg, s, es).initialized
    decreases |es|
  {
    if es != [] {
      InitializedStays(cfg, Step(cfg, s, es[0]), es[1..]);
    }
  }

  /** Hydration happens at most once per instance, and never once the flag is set. */
  lemma {:induction false} AtMostOneHydration(cfg: Config, s: SyncState, es: seq<Event>)
    ensures Hydrations(cfg, s, es) <= if s.initialized then 0 else 1
    decreases |es|
  {
    if es != [] {
      var s1 := Step(cfg, s, es[0]);
      assert Hydrates(s, es[0]) ==> s1.initialized;
      assert s.initialized ==> s1.initialized;
      AtMostOneHydration(cfg, s1, es[1..]);
    }
  }

  /**
   * Before hydration nothing is saved: as long as no present content has
   * arrived, whatever updates and time pass, no save is issued and the flag
   * stays unset.
   */
  lemma {:induction false} NoSaveBeforeHydration(cfg: Config, s: SyncState, es: seq<Event>)
    requires !s.initialized && Inv(s)
    requires forall i :: 0 <= i < |es| ==> !(es[i].ContentArrived? && Truthy(es[i].content))
    ensures Run(cfg, s, es).saves == s.saves && !Run(cfg, s, es).initialized
    decreases |es|
  {
    if es != [] {
      StepInv(cfg, s, es[0]);
      NoSaveBeforeHydration(cfg, Step(cfg, s, es[0]), es[1..]);
    }
  }

  /**
   * Hydration schedules a save of what it loaded: one quiet period after the
   * content arrives, the parsed content is written back under the file name.
   */
  lemma HydrationSavesLoadedContent(cfg: Config, s: SyncState, content: string)
    requires !s.initialized && content != ""
    ensures var r := Run(cfg, s, [ContentArrived(Some(content)), Elapsed(QuietPeriod)]);
      r.saves == s.saves + [SaveRequest(cfg.fileName, cfg.render(cfg.parse(Wrap(content))))]
      && r.pending == None
  {
    var s1 := Step(cfg, s, ContentArrived(Some(content)));
    var es := [ContentArrived(Some(content)), Elapsed(QuietPeriod)];
    assert es[1..] == [Elapsed(QuietPeriod)];
    assert Run(cfg, s, es) == Run(cfg, s1, [Elapsed(QuietPeriod)]);
    assert [Elapsed(QuietPeriod)][1..] == [];
  }

  /**
   * An update followed by a wait.  Before hydration, or without dirty nodes,
   * the update is invisible: the pair acts as the wait alone.  Otherwise the
   * update's state is saved under the file name once the wait reaches the
   * quiet period, whatever was pending before, and is still pending while
   * the wait is shorter.
   */
  lemma UpdateThenWait(cfg: Config, s: SyncState, dirtyElements: set<string>, dirtyLeaves: set<string>, state: EditorState, ms: nat)
    ensures var r := Run(cfg, s, [Updated(dirtyElements, dirtyLeaves, state), Elapsed(ms)]);
      && (!s.initialized || !HasChanges(dirtyElements, dirtyLeaves) ==> r == Step(cfg, s, Elapsed(ms)))
      && (s.initialized && HasChanges(dirtyElements, dirtyLeaves) && ms >= QuietPeriod ==>
            r.saves == s.saves + [SaveRequest(cfg.fileName, cfg.render(state.nodes))] && r.pending == None)
      && (s.initialized && HasChanges(dirtyElements, dirtyLeaves) && ms < QuietPeriod ==>
            r.saves == s.saves && r.pending == Some(state))
  {
    var es := [Updated(dirtyElements, dirtyLeaves, state), Elapsed(ms)];
    RunTwo(cfg, s, es);
    assert es[2..] == [];
  }

  /** One dirty update of a burst: the dirty node sets it carries and the editor state it reports. */
  datatype Edit = Edit(dirtyElements: set<string>, dirtyLeaves: set<string>, state: EditorState)

  /**
   * A burst of updates: update with `edits[i]`, then let `gaps[i]`
   * milliseconds pass, for each i.
   */
  function Burst(edits: seq<Edit>, gaps: seq<nat>): (es: seq<Event>)
    requires |gaps| == |edits|
    ensures |es| == 2 * |edits|
    decreases |edits|
  {
    if edits == [] then []
    else
      var e := edits[0];
      [Updated(e.dirtyElements, e.dirtyLeaves, e.state), Elapsed(gaps[0])] + Burst(edits[1..], gaps[1..])
  }

  /**
   * The debounce collapses a burst: when every update carries dirty nodes,
   * every gap but the last is shorter than the quiet period and the last is
   * at least as long, the whole burst issues exactly one save, of the last
   * state, keyed by the file name.
   */
  lemma {:induction false} DebounceCollapses(cfg: Config, s: SyncState, edits: seq<Edit>, gaps: seq<nat>)
    requires s.initialized
    requires |edits| > 0 && |gaps| == |edits|
    requires forall i :: 0 <= i < |edits| ==> HasChanges(edits[i].dirtyElements, edits[i].dirtyLeaves)
    requires forall i :: 0 <= i < |gaps| - 1 ==> gaps[i] < QuietPeriod
    requires gaps[|gaps| - 1] >= QuietPeriod
    ensures var r := Run(cfg, s, Burst(edits, gaps));
      r.saves == s.saves + [SaveRequest(cfg.fileName, cfg.render(edits[|edits| - 1].state.nodes))]
      && r.pending == None
    decreases |edits|
  {
    var es := Burst(edits, gaps);
    var s1 := Step(cfg, s, es[0]);
    var s2 := Step(cfg, s1, es[1]);
    assert HasChanges(edits[0].dirtyElements, edits[0].dirtyLeaves);
    assert s1.pending == Some(edits[0].state) && s1.deadline == s.now + QuietPeriod;
    RunTwo(cfg, s, es);
    if |edits| == 1 {
      assert es[2..] == [];
    } else {
      assert s2.saves == s.saves && s2.initialized;
      assert es[2..] == Burst(edits[1..], gaps[1..]);
      DebounceCollapses(cfg, s2, edits[1..], gaps[1..]);
    }
  }

  /** Running a sequence is running its first two events and then the rest. */
  lemma RunTwo(cfg: Config, s: SyncState, es: seq<Event>)
    requires |es| >= 2
    ensures Run(cfg, s, es) == Run(cfg, Step(cfg, Step(cfg, s, es[0]), es[1]), es[2..])
  {
    assert es[1..][0] == es[1];
    assert es[1..][1..] == es[2..];
  }

  /** Every save is keyed by the instance's file name. */
  lemma {:induction false} SavesUseFileName(cfg: Config, s: SyncState, es: seq<Event>)
    requires forall i :: 0 <= i < |s.saves| ==> s.saves[i].filename == cfg.fileName
    ensures var r := Run(cfg, s, es);
      forall i :: 0 <= i < |r.saves| ==> r.saves[i].filename == cfg.fileName
    decreases |es|
  {
    if es != [] {
      var s1 := Step(cfg, s, es[0]);
      assert s1.saves == s.saves || (es[0].Elapsed? && |s1.saves| == |s.saves| + 1 &&
        s1.saves[..|s.saves|] == s.saves && s1.saves[|s.saves|].filename == cfg.fileName);
      forall i | 0 <= i < |s1.saves| ensures s1.saves[i].filename == cfg.fileName {
        if i < |s.saves| && s1.saves != s.saves {
          assert s1.saves[i] == s1.saves[..|s.saves|][i];
        }
      }
      SavesUseFileName(cfg, s1, es[1..]);
      assert Run(cfg, s, es) == Run(cfg, s1, es[1..]);
    }
  }

  /**
   * The plugin instance.  It holds the editor it hydrates, the hydrate-once
   * flag and the debounce timer; `saves` records the update-file calls made.
   */
  class SyncPlugin {
    const cfg: Config
    const editor: Editor
    var initialized: bool
    var now: nat
    var pending: Option<EditorState>
    var deadline: nat
    var saves: seq<SaveRequest>

    function State(): SyncState
      reads this, editor
    {
      SyncState(editor.Snapshot(), initialized, now, pending, deadline, saves)
    }

    ghost predicate Valid()
      reads this, editor
    {
      editor.Valid() && Inv(State())
    }

    constructor (cfg: Config, editor: Editor)
      requires editor.Valid()
      ensures this.cfg == cfg && this.editor == editor
      ensures Valid() && State() == Initial(editor.Snapshot())
    {
      this.cfg := cfg;
      this.editor := editor;
      initialized := false;
      now := 0;
      pending := None;
      deadline := 0;
      saves := [];
    }

    /** The hydration effect, run whenever the file query's content changes. */
    method OnContent(content: Option<string>)
      requires Valid()
      modifies this, editor
      ensures Valid()
      ensures State() == Step(cfg, old(State()), ContentArrived(content))
    {
      if content.None? || content.value == "" || initialized {
        return;
      }
      var nodes := cfg.parse(Wrap(content.value));
      editor.ReplaceRoot(nodes);
      initialized := true;
      OnUpdate({RootKey}, {}, editor.Snapshot());
    }

    /** The update listener. */
    method OnUpdate(dirtyElements: set<string>, dirtyLeaves: set<string>, state: EditorState)
      requires Valid()
      modifies this
      ensures Valid()
      ensures State() == Step(cfg, old(State()), Updated(dirtyElements, dirtyLeaves, state))
    {
      if !initialized {
        return;
      }
      var hasChanges := |dirtyElements| > 0 || |dirtyLeaves| > 0;
      if hasChanges {
        DebouncedSave(state);
      }
    }

    /** Calls the debounced save: restart the quiet period, remember the latest state. */
    method DebouncedSave(state: EditorState)
      requires Valid() && initialized
      modifies this
      ensures Valid()
      ensures State() == old(State()).(pending := Some(state), deadline := old(now) + QuietPeriod)
    {
      pending := Some(state);
      deadline := now + QuietPeriod;
    }

    /** Lets `ms` milliseconds pass; a quiet period that runs out issues the save. */
    method Elapse(ms: nat)
      requires Valid()
      modifies this
      ensures Valid()
      ensures State() == Step(cfg, old(State()), Elapsed(ms))
    {
      var t := now + ms;
      if pending.Some? && deadline <= t {
        var html := cfg.render(pending.value.nodes);
        saves := saves + [SaveRequest(cfg.fileName, html)];
        pending := None;
      }
      now := t;
    }
  }
}
