/** Whole runs of the scalar NVM layer: live changes, single and bulk saves, restarts, and power cuts anywhere. */
module NvmRuns {
  import opened Bytes
  import opened ByteStores
  import opened Lines
  import opened NvmFormat
  import opened NvmSteps
  import opened ParNvms

  datatype Command =
    | Change(slot: nat, value: Value)
    | Save(slot: nat)
    | SaveAll
    | Restart

  /** How one turn ended; a device without power spends its turn on a power-up. */
  datatype Event =
    | Done(command: Command)
    | Cut(command: Command)
    | Recovered
    | StillDown

  /** RAM values, and the values the next undisturbed power-up would restore. */
  datatype State = State(live: seq<Value>, boot: seq<Value>)

  predicate Fits(s: Schema, c: Command) {
    match c
    case Change(k, v) => k < |s.params| && |v| == s.params[k].size
    case Save(k) => k < |s.params|
    case _ => true
  }

  /** What a cut save of slot `k` can leave: old or new inside one line; otherwise the defaults, or old and new
      payload mixed by lines. */
  ghost predicate CutSaved(s: Schema, ls: nat, v: State, k: nat, boot: seq<Value>)
    requires ls > 0 && Typed(s, v.live) && Typed(s, v.boot) && k < |s.params|
  {
    if InLine(s, ls, k) then boot in {v.boot, v.boot[k := v.live[k]]}
    else
      || boot == Defaults(s)
      || exists w :: w in Mixtures(v.boot[k], v.live[k], FirstPart(s, ls, k)) && boot == v.boot[k := w]
  }

  /** Allowed effect of one turn on storage with lines of `ls` bytes. */
  ghost predicate Step(s: Schema, ls: nat, v: State, e: Event, v': State) {
    && ls > 0
    && Typed(s, v.live) && Typed(s, v.boot) && Typed(s, v'.live) && Typed(s, v'.boot)
    && match e
       case Done(c) =>
         Fits(s, c) &&
         (match c
          case Change(k, value) => v' == State(v.live[k := value], v.boot)
          case Save(k) => v' == State(v.live, v.boot[k := v.live[k]])
          case SaveAll => v' == State(v.live, v.live)
          case Restart => v' == State(v.boot, v.boot))
       case Cut(c) =>
         Fits(s, c) &&
         (match c
          case Change(_, _) => false
          case Save(k) => CutSaved(s, ls, v, k, v'.boot)
          case SaveAll => v'.boot in {v.boot, v.live, Defaults(s)}
          case Restart => v'.boot == v.boot)
       case Recovered => v' == State(v.boot, v.boot)
       case StillDown => v'.boot == v.boot
  }

  /** A run seen from outside. Unless the run is `whole`, the device was lost inside its last event. */
  ghost predicate Explains(s: Schema, ls: nat, whole: bool, states: seq<State>, events: seq<Event>) {
    && |states| == |events| + 1
    && forall i :: 0 <= i < |events| && (whole || i < |events| - 1) ==> Explained(s, ls, states, events, i)
  }

  ghost predicate Explained(s: Schema, ls: nat, states: seq<State>, events: seq<Event>, i: nat)
    requires i < |events| < |states|
  {
    Step(s, ls, states[i], events[i], states[i + 1])
  }

  lemma ExplainsNext(s: Schema, ls: nat, states: seq<State>, events: seq<Event>, e: Event, v: State)
    requires Explains(s, ls, true, states, events) && Step(s, ls, states[|events|], e, v)
    ensures Explains(s, ls, true, states + [v], events + [e])
  {
    hide Step;
    forall i | 0 <= i <= |events|
      ensures Explained(s, ls, states + [v], events + [e], i)
    {
      if i < |events| {
        assert Explained(s, ls, states, events, i);
      }
    }
  }

  ghost function StateOf(nvm: ParNvm): State
    requires nvm.Wired()
    reads nvm, nvm.store.Parts()
  {
    State(nvm.live, nvm.Bootable())
  }

  /** Initialized, powered, and the stored image is complete. */
  ghost predicate Up(nvm: ParNvm)
    reads nvm, nvm.store.Parts()
  {
    nvm.Wired() && nvm.isInit && nvm.store.powered && Settled(nvm.schema, nvm.store.image, nvm.Bootable())
  }

  /** Power-up with RAM at its defaults. */
  method PowerUp(nvm: ParNvm) returns (event: Event)
    requires nvm.Wired()
    modifies nvm, nvm.store.Parts()
    ensures nvm.Wired() && event == if nvm.store.powered then Recovered else StillDown
    ensures nvm.Bootable() == old(nvm.Bootable())
    ensures nvm.store.powered ==> Up(nvm) && nvm.live == nvm.Bootable()
    ensures nvm.live in {nvm.Bootable(), Defaults(nvm.schema)}
  {
    hide Backed, Addr, DecodeRecord, RecordAt, Load, Booted, Settled, Plan, Stored;
    nvm.PowerCycle();
    var _ := nvm.Init();
    event := if nvm.store.powered then Recovered else StillDown;
  }

  /** A single save on a complete image. */
  method SaveOne(nvm: ParNvm, k: nat) returns (ok: bool)
    requires Up(nvm) && k < |nvm.schema.params|
    modifies nvm.store.Parts()
    ensures nvm.Wired() && ok == nvm.store.powered
    ensures ok ==> Up(nvm) && nvm.Bootable() == old(nvm.Bootable())[k := nvm.live[k]]
    ensures CutSaved(nvm.schema, nvm.store.lineSize, old(StateOf(nvm)), k, nvm.Bootable())
  {
    hide Backed, Addr, DecodeRecord, RecordAt, Load, Booted, Settled, Plan, Stored, Wrote, TornUpdate, EncodeRecord,
      InLine, Mixtures, FirstPart;
    ghost var img, boot := nvm.store.image, nvm.Bootable();
    var status := nvm.Write(k, true);
    ok := status == {};
    if InLine(nvm.schema, nvm.store.lineSize, k) {
      InLineSave(nvm.schema, nvm.store.lineSize, nvm.store.lineCount, img, nvm.store.image, k, boot, nvm.live[k]);
    } else {
      CutSave(nvm.schema, nvm.store.lineSize, nvm.store.lineCount, img, nvm.store.image, k, boot, nvm.live[k]);
    }
    SettledWrite(nvm.schema, ok, img, nvm.store.image, k, boot, nvm.live[k]);
    if ok {
      SettledBoots(nvm.schema, nvm.store.image, boot[k := nvm.live[k]]);
    }
  }

  method Execute(nvm: ParNvm, command: Command) returns (event: Event)
    requires Up(nvm) && Fits(nvm.schema, command)
    modifies nvm, nvm.store.Parts()
    ensures nvm.Wired() && (nvm.store.powered ==> Up(nvm))
    ensures event == if nvm.store.powered then Done(command) else Cut(command)
    ensures Step(nvm.schema, nvm.store.lineSize, old(StateOf(nvm)), event, StateOf(nvm))
  {
    hide Backed, Addr, DecodeRecord, RecordAt, Load, Booted, Settled, Plan, Stored, Holds;
    match command {
      case Change(k, v) => nvm.SetLive(k, v);
      case Save(k) => var _ := SaveOne(nvm, k);
      case SaveAll =>
        var _ := nvm.WriteScalarAll();
        if nvm.store.powered {
          SettledBoots(nvm.schema, nvm.store.image, nvm.live);
        }
      case Restart => var _ := PowerUp(nvm);
    }
    event := if nvm.store.powered then Done(command) else Cut(command);
  }

  /** Any run, power cut anywhere: what the next power-up restores moves exactly by allowed steps. Only a device lost
      inside an unsafe bank erase ends the run, with the event it was lost in. */
  method Run(nvm: ParNvm, commands: seq<Command>) returns (events: seq<Event>, ghost states: seq<State>)
    requires nvm.Wired() && (nvm.store.powered ==> Up(nvm))
    requires forall i :: 0 <= i < |commands| ==> Fits(nvm.schema, commands[i])
    modifies nvm, nvm.store.Parts()
    ensures nvm.Wired() && (nvm.store.powered ==> Up(nvm))
    ensures Explains(nvm.schema, nvm.store.lineSize, !nvm.store.IsLost(), states, events)
    ensures |events| <= |commands| && (|events| < |commands| ==> nvm.store.IsLost())
    ensures states[0] == old(StateOf(nvm)) && states[|events|] == StateOf(nvm)
  {
    hide Backed, Addr, Load, Booted, Settled, Plan, Stored, Holds, Step, Fits;
    events, states := [], [StateOf(nvm)];
    while |events| < |commands| && !nvm.store.IsLost()
      invariant nvm.Wired() && (nvm.store.powered ==> Up(nvm))
      invariant |events| <= |commands| && Explains(nvm.schema, nvm.store.lineSize, true, states, events)
      invariant states[0] == old(StateOf(nvm)) && states[|events|] == StateOf(nvm)
      modifies nvm, nvm.store.Parts()
    {
      var event := Turn(nvm, commands[|events|]);
      ExplainsNext(nvm.schema, nvm.store.lineSize, states, events, event, StateOf(nvm));
      events, states := events + [event], states + [StateOf(nvm)];
    }
  }

  method Turn(nvm: ParNvm, command: Command) returns (event: Event)
    requires nvm.Wired() && (nvm.store.powered ==> Up(nvm)) && Fits(nvm.schema, command)
    modifies nvm, nvm.store.Parts()
    ensures nvm.Wired() && (nvm.store.powered ==> Up(nvm))
    ensures Step(nvm.schema, nvm.store.lineSize, old(StateOf(nvm)), event, StateOf(nvm))
  {
    hide Backed, Addr, Load, Booted, Settled, Plan, Stored, Holds;
    if nvm.store.powered {
      event := Execute(nvm, command);
    } else {
      event := PowerUp(nvm);
    }
  }

  /** The whole life of a factory-fresh device: default flash configuration, erased flash, and the parameter NVM on
      top of it. */
  method FactoryLife(schema: Schema, crc16: (U16, seq<Byte>) -> U16, commands: seq<Command>)
    returns (nvm: ParNvm, events: seq<Event>, ghost states: seq<State>)
    requires schema.Valid() && Addr(schema, |schema.params|) <= 4096
    requires forall i :: 0 <= i < |commands| ==> Fits(schema, commands[i])
    ensures fresh(nvm) && nvm.schema == schema && nvm.Wired()
    ensures |events| == |commands| && Explains(schema, 32, true, states, events)
    ensures states[0] == State(Defaults(schema), Defaults(schema)) && states[|events|] == StateOf(nvm)
  {
    hide Backed, Addr, Load, Booted, Settled, Plan, Stored, Step, Fits, Voided;
    var store := FactoryStore(crc16);
    BlankVoided(schema, store.image);
    nvm := new ParNvm(schema, store);
    VoidedBoots(schema, store.image);
    var _ := PowerUp(nvm);
    events, states := Run(nvm, commands);
    store.NeverLost();
  }

  lemma BlankVoided(s: Schema, img: seq<Byte>)
    requires Holds(s, img) && IsErased(img)
    ensures Voided(s, img)
  {
    assert img[..NVM_SIGN_SIZE][..2] == [ERASED, ERASED] && img[..NVM_SIGN_SIZE][2..] == [ERASED, ERASED];
  }

  /** The live values that some bulk save of the run set out to store. */
  ghost predicate Offered(states: seq<State>, events: seq<Event>, n: nat, vs: seq<Value>)
    requires n <= |events| < |states|
  {
    exists i :: 0 <= i < n && events[i] in {Done(SaveAll), Cut(SaveAll)} && states[i].live == vs
  }

  /** With bulk saves only, what boots is always one complete set: the initial one, the defaults,
      or the live values of some bulk save. Never a mixture. */
  lemma {:induction false} NeverMixed(s: Schema, ls: nat, whole: bool, states: seq<State>, events: seq<Event>, n: nat)
    requires Explains(s, ls, whole, states, events) && n <= |events| && (whole || n < |events|)
    requires forall i :: 0 <= i < |events| && (events[i].Done? || events[i].Cut?) ==> !events[i].command.Save?
    ensures states[n].boot in {states[0].boot, Defaults(s)} || Offered(states, events, n, states[n].boot)
  {
    if n != 0 {
      NeverMixed(s, ls, whole, states, events, n - 1);
      assert Explained(s, ls, states, events, n - 1);
      if events[n - 1] in {Done(SaveAll), Cut(SaveAll)} && states[n].boot == states[n - 1].live {
        assert Offered(states, events, n, states[n].boot);
      }
    }
  }

  /** The turn cannot change what slot `k` boots with: it saves neither that slot nor everything, and it is not a cut
      save of a record that crosses a line boundary. */
  ghost predicate Sheltered(s: Schema, ls: nat, e: Event, k: nat)
    requires ls > 0
  {
    && !Saves(e, k)
    && (e.Cut? && e.command.Save? && e.command.slot < |s.params| ==> InLine(s, ls, e.command.slot))
  }

  /** A slot keeps its bootable value through any sheltered turns, through cut restarts and cut saves of others too. */
  lemma {:induction false} SlotStays(s: Schema, ls: nat, whole: bool, states: seq<State>, events: seq<Event>, i: nat,
                                     j: nat, k: nat)
    requires Explains(s, ls, whole, states, events) && i < j <= |events| && (whole || j < |events|) && k < |s.params| &&
      ls > 0
    requires forall n :: i <= n < j ==> Sheltered(s, ls, events[n], k)
    ensures |states[i].boot| == |states[j].boot| == |s.params| && states[j].boot[k] == states[i].boot[k]
    decreases j - i
  {
    hide InLine, Mixtures, FirstPart;
    assert Explained(s, ls, states, events, i);
    if i + 1 < j {
      SlotStays(s, ls, whole, states, events, i + 1, j, k);
    }
  }

  /** Without that shelter the worst a turn that does not save the slot can do is bring back its default. */
  lemma {:induction false} SlotOrDefault(s: Schema, ls: nat, whole: bool, states: seq<State>, events: seq<Event>,
                                         i: nat, j: nat,
                                         k: nat)
    requires Explains(s, ls, whole, states, events) && i < j <= |events| && (whole || j < |events|) && k < |s.params|
    requires forall n :: i <= n < j ==> !Saves(events[n], k)
    ensures |states[i].boot| == |states[j].boot| == |s.params|
    ensures states[j].boot[k] in {states[i].boot[k], Defaults(s)[k]}
    decreases j - i
  {
    hide InLine, Mixtures, FirstPart;
    assert Explained(s, ls, states, events, i);
    if i + 1 < j {
      SlotOrDefault(s, ls, whole, states, events, i + 1, j, k);
    }
  }

  /** A completed single save is durable: the saved value is what boots until the slot is saved again. */
  lemma SavedStays(s: Schema, ls: nat, whole: bool, states: seq<State>, events: seq<Event>, i: nat, j: nat, k: nat)
    requires Explains(s, ls, whole, states, events) && i < j <= |events| && (whole || j < |events|) && k < |s.params| &&
      ls > 0
    requires events[i] == Done(Save(k))
    requires forall n :: i < n < j ==> Sheltered(s, ls, events[n], k)
    ensures |states[i].live| == |states[j].boot| == |s.params| && states[j].boot[k] == states[i].live[k]
  {
    hide InLine, Sheltered, Mixtures, FirstPart;
    assert Explained(s, ls, states, events, i);
    if i + 1 < j {
      SlotStays(s, ls, whole, states, events, i + 1, j, k);
    }
  }

  predicate Saves(e: Event, k: nat) {
    (e.Done? || e.Cut?) && (e.command.SaveAll? || e.command == Save(k))
  }

  /** A completed turn that saves the slot makes its live value the one that boots; a cut one set out to do so. */
  lemma SaveStores(s: Schema, ls: nat, v: State, e: Event, v': State, k: nat)
    requires Step(s, ls, v, e, v') && k < |s.params|
    ensures e.Done? && Saves(e, k) ==> v'.boot[k] == v.live[k]
    ensures e.Cut? && Saves(e, k) ==> e.command in {Save(k), SaveAll}
    ensures e in {Recovered, StillDown} ==> !Saves(e, k)
  {
  }
}
