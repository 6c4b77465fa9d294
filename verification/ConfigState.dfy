/** The configuration state: the live registry always is what its stored overrides call for. */
module ConfigStates {
  import opened Options
  import opened Chords
  import opened Keybindings
  import opened ChordLaws

  /** The configuration; everything but the overrides is opaque here. */
  datatype Config = Config(overrides: Bindings, other: int)

  /** The live configuration and registry, and the configuration on disk. */
  datatype State = State(config: Config, bindings: Bindings, saved: Config)

  /** What users do; whether a save works is up to the disk. */
  datatype Event =
    | ReplaceConfig(config: Config, writable: bool)
    | SetBinding(action: string, chord: string, writable: bool)

  function Start(stored: Config): State {
    State(stored, WithOverrides(stored.overrides), stored)
  }

  /** Replacing is saved first and changes nothing when that fails; a binding is changed first and saved afterwards. */
  function Step(s: State, e: Event): State {
    match e
    case ReplaceConfig(config, writable) =>
      if writable then Start(config) else s
    case SetBinding(action, chord, writable) =>
      var config := s.config.(overrides := s.config.overrides[action := chord]);
      State(config, Bind(s.bindings, action, chord), if writable then config else s.saved)
  }

  class ConfigState {
    var config: Config
    /** What is on disk. */
    var saved: Config
    const keybindings: KeybindingRegistry

    ghost function View(): State
      reads this, keybindings
    {
      State(config, keybindings.bindings, saved)
    }

    /** `stored` is what the store loads. */
    constructor FromDir(stored: Config)
      ensures View() == Start(stored) && fresh(keybindings)
    {
      config, saved := stored, stored;
      keybindings := new KeybindingRegistry.FromOverrides(stored.overrides);
    }

    method SetConfig(next: Config, writable: bool) returns (ok: bool)
      modifies this, keybindings
      ensures View() == Step(old(View()), ReplaceConfig(next, writable)) && ok == writable
    {
      if !writable {
        return false;
      }
      saved := next;
      var rebuilt := new KeybindingRegistry.FromOverrides(next.overrides);
      keybindings.bindings := rebuilt.bindings;
      config := next;
      return true;
    }

    method KeybindingSet(action: string, chord: string, writable: bool) returns (conflicts: Option<seq<Conflict>>)
      modifies this, keybindings
      ensures View() == Step(old(View()), SetBinding(action, chord, writable))
      ensures conflicts.Some? <==> writable
      ensures conflicts.Some? ==>
                NoDuplicates(conflicts.value) &&
                forall c :: c in conflicts.value <==> Conflicting(keybindings.bindings, c)
    {
      hide Normalized, WithOverrides, Bind;
      keybindings.Set(action, chord);
      config := config.(overrides := config.overrides[action := chord]);
      if !writable {
        return None;
      }
      saved := config;
      var found := keybindings.DetectConflicts();
      return Some(found);
    }
  }

  // ---------------------------------------------------------------- whole runs

  function Run(stored: Config, events: seq<Event>): State {
    if events == [] then Start(stored)
    else Step(Run(stored, events[..|events| - 1]), events[|events| - 1])
  }

  /** After every run the incremental registry equals one rebuilt from the overrides. */
  lemma {:induction false} RegistryIsRebuilt(stored: Config, events: seq<Event>)
    ensures var s := Run(stored, events); s.bindings == WithOverrides(s.config.overrides)
  {
    hide WithOverrides, Bind;
    if events != [] {
      var front, last := events[..|events| - 1], events[|events| - 1];
      RegistryIsRebuilt(stored, front);
      if last.SetBinding? { SetIsRebuild(Run(stored, front).config.overrides, last.action, last.chord); }
    }
  }

  /** After a configuration is replaced nothing of the past is left; a failed save leaves all of it. */
  lemma ReplacingForgets(stored: Config, events: seq<Event>, config: Config, writable: bool)
    ensures var s, after := Run(stored, events), Run(stored, events + [ReplaceConfig(config, writable)]);
            if writable then
              after.config == config && after.saved == config && after.bindings == WithOverrides(config.overrides)
            else after == s
  {
    hide WithOverrides, Bind;
    assert (events + [ReplaceConfig(config, writable)])[..|events|] == events;
  }

  /** Binding adds one override and nothing else, on disk as well when the save works. */
  lemma BindingAddsOne(stored: Config, events: seq<Event>, action: string, chord: string, writable: bool)
    ensures var s, after := Run(stored, events), Run(stored, events + [SetBinding(action, chord, writable)]);
            && after.config.overrides == s.config.overrides[action := chord] && after.config.other == s.config.other
            && after.saved == (if writable then after.config else s.saved)
            && after.bindings == WithOverrides(s.config.overrides[action := chord])
  {
    hide WithOverrides, Bind;
    var all := events + [SetBinding(action, chord, writable)];
    assert all[..|events|] == events;
    RegistryIsRebuilt(stored, all);
  }

  // ---------------------------------------------------------------- restarts

  /** The bindings set since the last save that worked. */
  function Unsaved(events: seq<Event>): Bindings {
    if events == [] then map[]
    else
      var before, last := Unsaved(events[..|events| - 1]), events[|events| - 1];
      if last.writable then map[]
      else if last.SetBinding? then before[last.action := last.chord]
      else before
  }

  /** The live configuration is the one on disk with the unsaved bindings on top, and nothing else. */
  lemma {:induction false} LiveIsSavedAndUnsaved(stored: Config, events: seq<Event>)
    ensures var s := Run(stored, events);
            s.config == s.saved.(overrides := s.saved.overrides + Unsaved(events))
  {
    hide WithOverrides, Bind;
    if events != [] {
      LiveIsSavedAndUnsaved(stored, events[..|events| - 1]);
    } else {
      assert stored.overrides + map[] == stored.overrides;
    }
  }

  /** The overrides on disk already give the action what this chord gives it. */
  predicate AsOnDisk(saved: Bindings, action: string, chord: string) {
    var onDisk := WithOverrides(saved);
    if Normalized(chord) == "" then action !in onDisk else action in onDisk && onDisk[action] == Normalized(chord)
  }

  /** A restart gives the live bindings exactly when every unsaved one is what the disk says anyway. */
  lemma RestartKeepsBindingsExactlyWhen(stored: Config, events: seq<Event>)
    ensures var s := Run(stored, events);
            Start(s.saved).bindings == s.bindings <==>
            forall a :: a in Unsaved(events) ==> AsOnDisk(s.saved.overrides, a, Unsaved(events)[a])
  {
    hide Normalized, DefaultBindings, Run, Unsaved;
    RegistryIsRebuilt(stored, events);
    LiveIsSavedAndUnsaved(stored, events);
    var s := Run(stored, events);
    OverlayAgreesExactlyWhen(s.saved.overrides, Unsaved(events));
  }

  lemma OverlayAgreesExactlyWhen(saved: Bindings, unsaved: Bindings)
    ensures WithOverrides(saved) == WithOverrides(saved + unsaved) <==>
            forall a :: a in unsaved ==> AsOnDisk(saved, a, unsaved[a])
  {
    hide Normalized, DefaultBindings;
    var onDisk, live := WithOverrides(saved), WithOverrides(saved + unsaved);
    forall a | a in unsaved
      ensures AsOnDisk(saved, a, unsaved[a]) <==>
              (a in onDisk <==> a in live) && (a in live ==> a in onDisk && live[a] == onDisk[a])
    {
    }
    forall a | a !in unsaved ensures (a in onDisk <==> a in live) && (a in live ==> live[a] == onDisk[a]) {
    }
  }

  /** An unbinding whose save fails is undone by a restart. */
  lemma FailedSaveIsLost()
    ensures var s := Run(Config(map[], 0), [SetBinding("find.open", "", false)]);
            Start(s.saved).bindings != s.bindings
  {
    var events := [SetBinding("find.open", "", false)];
    assert events[..|events| - 1] == [];
    NoTokens();
    EmptyExactlyWhenNoTokens("");
    assert Defaults()[10].action == "find.open";
    DefaultBindingsAre("find.open", Spelled(Defaults()[10]));
  }
}
