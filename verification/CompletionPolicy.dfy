/**
The append policy of a completion round: from the decisions replayed with and without the gap inputs, and
from what the journal already holds, the plain events, replacements and tombstones that carry the gap's
causal effect and nothing else.
*/
module CompletionPolicy {
  import opened Wrappers

  type Id = string

  /** A derived decision: what its semantic comparison reads. */
  datatype Event = Event(id: Id, at: string, payload: string)

  datatype Status = Active(record: Event) | Tombstone | Unresolved

  /** The selected revision of an id: the highest one admitted. */
  datatype Selected = Selected(rev: nat, status: Status)

  datatype Action = Replace(id: Id, rev: nat, at: string, payload: string) | Retire(id: Id, rev: nat, at: string)

  /** What one round reads: the selection, revisions that occupy an id without being selected, the two replays. */
  datatype Round = Round(
    selection: map<Id, Selected>,
    excluded: map<Id, nat>,           // highest revision of an excluded record
    inert: map<Id, nat>,              // highest revision of an incomplete batch of another family
    withGap: map<Id, Event>,
    withoutGap: map<Id, Event>,
    targets: map<Id, Event>,          // records the five-hour planner decides
    handled: set<Id>)                 // ids it decides to leave alone

  type Preserve = (Event, Event) -> Event

  ghost predicate WellFormed(r: Round) {
    && (forall id | id in r.withGap :: r.withGap[id].id == id)
    && (forall id | id in r.targets :: r.targets[id].id == id)
    && (forall id | id in r.selection && r.selection[id].status.Active? :: r.selection[id].status.record.id == id)
  }

  /** Carrying non-derivable state over keeps the id. */
  ghost predicate KeepsId(preserve: Preserve) {
    forall c, d :: preserve(c, d).id == d.id
  }

  /** It changes nothing on a decision itself, and nothing the second time. */
  ghost predicate Idempotent(preserve: Preserve) {
    forall c, d {:trigger preserve(c, d)} :: preserve(d, d) == d && preserve(preserve(c, d), d) == preserve(c, d)
  }

  function Current(sel: map<Id, Selected>, id: Id): Option<Event> {
    if id in sel && sel[id].status.Active? then Some(sel[id].status.record) else None
  }

  /** The highest revision any physical record of `id` occupies. */
  function Physical(r: Round, id: Id): Option<nat> {
    Higher(Higher(Rev(r.excluded, id), Rev(r.inert, id)), if id in r.selection then Some(r.selection[id].rev) else None)
  }

  function Rev(m: map<Id, nat>, id: Id): Option<nat> { if id in m then Some(m[id]) else None }

  function Higher(a: Option<nat>, b: Option<nat>): Option<nat> {
    if a.None? then b else if b.None? then a else if a.value < b.value then b else a
  }

  /** The gap changes the decision under `id`: present in one replay only, or different in the two. */
  predicate Acted(r: Round, id: Id) {
    (id in r.withGap || id in r.withoutGap)
    && !(id in r.withGap && id in r.withoutGap && r.withGap[id] == r.withoutGap[id])
  }

  /******* What the journal selects after the append *******/

  /** Highest revision wins; a plain event is revision 0. */
  function Land(sel: map<Id, Selected>, id: Id, rev: nat, status: Status): map<Id, Selected> {
    if id in sel && rev <= sel[id].rev then sel else sel[id := Selected(rev, status)]
  }

  function LandPlain(sel: map<Id, Selected>, plain: seq<Event>): map<Id, Selected> {
    if plain == [] then sel else
      var e := plain[|plain| - 1];
      Land(LandPlain(sel, plain[..|plain| - 1]), e.id, 0, Active(e))
  }

  function LandActions(sel: map<Id, Selected>, actions: seq<Action>): map<Id, Selected> {
    if actions == [] then sel else
      LandAction(LandActions(sel, actions[..|actions| - 1]), actions[|actions| - 1])
  }

  function StatusOf(a: Action): Status {
    if a.Replace? then Active(Event(a.id, a.at, a.payload)) else Tombstone
  }

  function LandAction(sel: map<Id, Selected>, a: Action): map<Id, Selected> { Land(sel, a.id, a.rev, StatusOf(a)) }

  /** The selection once the batch and the plain events are journaled. */
  function After(r: Round, plain: seq<Event>, actions: seq<Action>): map<Id, Selected> {
    LandPlain(LandActions(r.selection, actions), plain)
  }

  /******* The desired state, id by id *******/

  /** What the round owes an id: `None` leaves it alone; `Some(None)` removes it. */
  function Owed(r: Round, preserve: Preserve, id: Id): Option<Option<Event>> {
    if id in r.targets then Some(Some(r.targets[id]))
    else if id in r.handled || !Acted(r, id) then None
    else if id !in r.withGap then Some(None)
    else
      var current := Current(r.selection, id);
      Some(Some(if current.Some? then preserve(current.value, r.withGap[id]) else r.withGap[id]))
  }

  /** Nothing but the ids owed a change moves, and each of those ends where it is owed to be. */
  ghost predicate Settled(r: Round, preserve: Preserve, ids: set<Id>, sel: map<Id, Selected>) {
    && (forall id | id !in ids || Owed(r, preserve, id).None? :: id in sel <==> id in r.selection)
    && (forall id | id in r.selection && (id !in ids || Owed(r, preserve, id).None?) :: sel[id] == r.selection[id])
    && (forall id | id in ids && Owed(r, preserve, id).Some? :: Current(sel, id) == Owed(r, preserve, id).value)
    && (forall id | id in r.selection :: id in sel && sel[id].rev >= r.selection[id].rev)
  }

  /** Every id an emission names, once, at a revision no physical record of it reaches. */
  ghost predicate FreshRevisions(r: Round, plain: seq<Event>, actions: seq<Action>) {
    && (forall k | 0 <= k < |plain| :: Physical(r, plain[k].id).None?)
    && (forall k | 0 <= k < |actions| :: Physical(r, actions[k].id).Some? && actions[k].rev > Physical(r, actions[k].id).value)
  }

  /******* The emissions in the round's own maps *******/

  /** No record of the id occupies a revision. */
  ghost predicate Unseen(r: Round, id: Id) { id !in r.selection && id !in r.excluded && id !in r.inert }

  /** One above the highest revision the id's records occupy, selected, excluded or inert. */
  ghost predicate JustAbove(r: Round, id: Id, rev: nat) {
    && (id in r.selection ==> r.selection[id].rev < rev)
    && (id in r.excluded ==> r.excluded[id] < rev)
    && (id in r.inert ==> r.inert[id] < rev)
    && (|| (id in r.selection && rev == r.selection[id].rev + 1)
        || (id in r.excluded && rev == r.excluded[id] + 1)
        || (id in r.inert && rev == r.inert[id] + 1))
  }

  /** An action changes what is selected: a retirement a current record, at its instant, a replacement another one. */
  ghost predicate Moves(r: Round, a: Action) {
    match a
    case Retire(id, _, at) => id in r.selection && r.selection[id].status.Active? && at == r.selection[id].status.record.at
    case Replace(id, _, at, payload) => !Holds(r.selection, id, Event(id, at, payload))
  }

  /** Plain events name ids never seen, actions take the next revision of ids that were, and no id is named twice. */
  ghost predicate NextRevisions(r: Round, plain: seq<Event>, actions: seq<Action>) {
    && (forall k | 0 <= k < |plain| :: Unseen(r, plain[k].id))
    && (forall k | 0 <= k < |actions| :: JustAbove(r, actions[k].id, actions[k].rev) && Moves(r, actions[k]))
    && (forall k, q | 0 <= k < q < |plain| :: plain[k].id != plain[q].id)
    && (forall k, q | 0 <= k < q < |actions| :: actions[k].id != actions[q].id)
  }

  /** The physical revision in the three maps: none exactly for an unseen id, and otherwise the next one is just above. */
  lemma PhysicalIs(r: Round, id: Id)
    ensures Physical(r, id).None? <==> Unseen(r, id)
    ensures Physical(r, id).Some? ==> forall rev :: JustAbove(r, id, rev) <==> rev == Physical(r, id).value + 1
  {}

  ghost predicate Holds(sel: map<Id, Selected>, id: Id, e: Event) { id in sel && sel[id].status == Active(e) }

  /** The two replays decide the id alike, or neither does. */
  ghost predicate SameInBoth(r: Round, id: Id) {
    if id in r.withGap then id in r.withoutGap && r.withoutGap[id] == r.withGap[id] else id !in r.withoutGap
  }

  /**
  What the round leaves selected, id by id: the planner's record, or nothing new; on an id the gap acts on, the
  with-gap decision carrying over what its current record holds, and no record where the gap removes it.
  */
  ghost predicate CarriesGap(r: Round, preserve: Preserve, id: Id, sel: map<Id, Selected>) {
    if id in r.targets then Holds(sel, id, r.targets[id])
    else if id in r.handled || SameInBoth(r, id) then
      (id in sel <==> id in r.selection) && (id in sel ==> sel[id] == r.selection[id])
    else if id !in r.withGap then !(id in sel && sel[id].status.Active?)
    else if id in r.selection && r.selection[id].status.Active? then
      Holds(sel, id, preserve(r.selection[id].status.record, r.withGap[id]))
    else Holds(sel, id, r.withGap[id])
  }

  lemma SettledCarries(r: Round, preserve: Preserve, ids: set<Id>, sel: map<Id, Selected>, id: Id)
    requires Settled(r, preserve, ids, sel)
    requires id in ids <==> id in r.withGap || id in r.withoutGap || id in r.targets
    ensures CarriesGap(r, preserve, id, sel)
  {
    if id in ids && Owed(r, preserve, id).Some? {
      assert Current(sel, id) == Owed(r, preserve, id).value;
    }
  }

  /**
  Where one id stands after a batch landed: at the highest revision among its record and the batch's, as that one
  says; its record stays where none is higher.
  */
  ghost predicate Highest(sel: map<Id, Selected>, actions: seq<Action>, t: map<Id, Selected>, id: Id) {
    && (id in sel ==> id in t && t[id].rev >= sel[id].rev)
    && (forall k | 0 <= k < |actions| && actions[k].id == id :: id in t && t[id].rev >= actions[k].rev)
    && (id in sel && (forall k | 0 <= k < |actions| && actions[k].id == id :: actions[k].rev <= sel[id].rev) ==> id in t && t[id] == sel[id])
    && (id in t ==> (id in sel && t[id] == sel[id])
                    || exists k :: 0 <= k < |actions| && actions[k].id == id && t[id] == Selected(actions[k].rev, StatusOf(actions[k])))
  }

  lemma {:induction false} HighestWins(sel: map<Id, Selected>, actions: seq<Action>, id: Id)
    ensures Highest(sel, actions, LandActions(sel, actions), id)
  {
    if actions != [] {
      var n := |actions| - 1;
      HighestWins(sel, actions[..n], id);
      HighestStep(sel, actions[..n], actions[n], LandActions(sel, actions[..n]), id);
      assert actions[..n] + [actions[n]] == actions;
    }
  }

  lemma HighestStep(sel: map<Id, Selected>, front: seq<Action>, a: Action, t: map<Id, Selected>, id: Id)
    requires Highest(sel, front, t, id)
    ensures Highest(sel, front + [a], LandAction(t, a), id)
  {
    var all, u := front + [a], LandAction(t, a);
    assert all[|front|] == a && forall k | 0 <= k < |front| :: all[k] == front[k];
    if id in t && !(id in sel && t[id] == sel[id]) {
      var k :| 0 <= k < |front| && front[k].id == id && t[id] == Selected(front[k].rev, StatusOf(front[k]));
      assert all[k].id == id;
    }
    if id in sel && forall k | 0 <= k < |all| && all[k].id == id :: all[k].rev <= sel[id].rev {
      assert forall k | 0 <= k < |front| && front[k].id == id :: all[k].id == id;
    }
  }

  /** An action on an id no plain event names commutes with the plain events. */
  lemma {:induction false} LandCommutes(sel: map<Id, Selected>, plain: seq<Event>, id: Id, rev: nat, status: Status)
    requires forall k | 0 <= k < |plain| :: plain[k].id != id
    ensures LandPlain(Land(sel, id, rev, status), plain) == Land(LandPlain(sel, plain), id, rev, status)
    ensures id in LandPlain(sel, plain) <==> id in sel
    ensures id in sel ==> LandPlain(sel, plain)[id] == sel[id]
  {
    if plain != [] {
      var n := |plain| - 1;
      LandCommutes(sel, plain[..n], id, rev, status);
      LandsCommute(LandPlain(sel, plain[..n]), id, rev, status, plain[n].id, 0, Active(plain[n]));
    }
  }

  lemma LandsCommute(sel: map<Id, Selected>, a: Id, aRev: nat, aStatus: Status, b: Id, bRev: nat, bStatus: Status)
    requires a != b
    ensures Land(Land(sel, a, aRev, aStatus), b, bRev, bStatus) == Land(Land(sel, b, bRev, bStatus), a, aRev, aStatus)
    ensures a in Land(sel, b, bRev, bStatus) <==> a in sel
    ensures a in sel ==> Land(sel, b, bRev, bStatus)[a] == sel[a]
  {}

  function Elements(ids: seq<Id>): set<Id> { set id | id in ids }

  lemma ElementsStep(ids: seq<Id>, k: nat)
    requires k < |ids| && forall a, b | 0 <= a < b < |ids| :: ids[a] != ids[b]
    ensures ids[k] !in Elements(ids[..k]) && Elements(ids[..k + 1]) == Elements(ids[..k]) + {ids[k]}
  {
    assert ids[..k + 1] == ids[..k] + [ids[k]];
  }

  /** One id's emission under the binding append policy. */
  method AppendDesired(r: Round, id: Id, desired: Event, plain: seq<Event>, actions: seq<Action>)
    returns (plain': seq<Event>, actions': seq<Action>)
    requires desired.id == id
    ensures plain' == if Current(r.selection, id) != Some(desired) && Physical(r, id).None? then plain + [desired] else plain
    ensures actions' == if Current(r.selection, id) != Some(desired) && Physical(r, id).Some?
                        then actions + [Replace(id, Physical(r, id).value + 1, desired.at, desired.payload)] else actions
  {
    plain', actions' := plain, actions;
    if Current(r.selection, id) == Some(desired) {
      return;
    }
    var physical := Physical(r, id);
    if physical.None? {
      plain' := plain + [desired];
      return;
    }
    actions' := actions + [Replace(id, physical.value + 1, desired.at, desired.payload)];
  }

  /** The revision and status an id's emission lands at, if it has one. */
  function Emission(r: Round, preserve: Preserve, id: Id): Option<(nat, Status)> {
    var owed := Owed(r, preserve, id);
    if owed.None? || owed.value == Current(r.selection, id) then None
    else
      var physical := Physical(r, id);
      Some((if physical.None? then 0 else physical.value + 1, if owed.value.None? then Tombstone else Active(owed.value.value)))
  }

  /** Emit what one id is owed. */
  method Emit(r: Round, preserve: Preserve, id: Id, plain: seq<Event>, actions: seq<Action>)
    returns (plain': seq<Event>, actions': seq<Action>)
    requires WellFormed(r) && KeepsId(preserve)
    requires forall q | 0 <= q < |plain| :: plain[q].id != id
    requires FreshRevisions(r, plain, actions)
    ensures FreshRevisions(r, plain', actions')
    ensures plain <= plain' && actions <= actions'
    ensures forall q | |plain| <= q < |plain'| :: plain'[q].id == id
    ensures forall q | |actions| <= q < |actions'| :: actions'[q].id == id
    ensures |plain'| + |actions'| <= |plain| + |actions| + 1
    ensures forall q | |actions| <= q < |actions'| :: JustAbove(r, id, actions'[q].rev) && Moves(r, actions'[q])
    ensures Emission(r, preserve, id).None? ==> plain' == plain && actions' == actions
    ensures var e := Emission(r, preserve, id);
            After(r, plain', actions') == if e.None? then After(r, plain, actions)
                                          else Land(After(r, plain, actions), id, e.value.0, e.value.1)
  {
    plain', actions' := EmitOwed(r, preserve, id, plain, actions);
    Lands(r, id, Emission(r, preserve, id), plain, actions, plain', actions');
    PhysicalIs(r, id);
  }

  /** The lists grew by exactly this emission. */
  ghost predicate Emits(id: Id, e: Option<(nat, Status)>, unseen: bool, plain: seq<Event>, actions: seq<Action>,
                        plain': seq<Event>, actions': seq<Action>) {
    if e.None? then plain' == plain && actions' == actions
    else if unseen then
      && e.value.0 == 0 && e.value.1.Active? && e.value.1.record.id == id
      && plain' == plain + [e.value.1.record] && actions' == actions
    else
      && plain' == plain && |actions'| == |actions| + 1 && actions == actions'[..|actions|]
      && var a := actions'[|actions|]; a.id == id && a.rev == e.value.0 && StatusOf(a) == e.value.1
  }

  method EmitOwed(r: Round, preserve: Preserve, id: Id, plain: seq<Event>, actions: seq<Action>)
    returns (plain': seq<Event>, actions': seq<Action>)
    requires WellFormed(r) && KeepsId(preserve)
    ensures Emits(id, Emission(r, preserve, id), Physical(r, id).None?, plain, actions, plain', actions')
    ensures forall q | |actions| <= q < |actions'| :: Moves(r, actions'[q])
  {
    plain', actions' := plain, actions;
    if id in r.targets {
      plain', actions' := AppendDesired(r, id, r.targets[id], plain, actions);
    } else if id !in r.handled && Acted(r, id) {
      var current := Current(r.selection, id);
      if id !in r.withGap {
        if current.Some? {
          actions' := actions + [Retire(id, Physical(r, id).value + 1, current.value.at)];
        }
      } else {
        var desired := if current.Some? then preserve(current.value, r.withGap[id]) else r.withGap[id];
        plain', actions' := AppendDesired(r, id, desired, plain, actions);
      }
    }
  }

  lemma Lands(r: Round, id: Id, e: Option<(nat, Status)>, plain: seq<Event>, actions: seq<Action>,
              plain': seq<Event>, actions': seq<Action>)
    requires forall q | 0 <= q < |plain| :: plain[q].id != id
    requires FreshRevisions(r, plain, actions)
    requires e.Some? ==> e.value.0 == if Physical(r, id).None? then 0 else Physical(r, id).value + 1
    requires Emits(id, e, Physical(r, id).None?, plain, actions, plain', actions')
    ensures FreshRevisions(r, plain', actions')
    ensures plain <= plain' && actions <= actions'
    ensures forall q | |plain| <= q < |plain'| :: plain'[q].id == id
    ensures forall q | |actions| <= q < |actions'| :: actions'[q].id == id
    ensures After(r, plain', actions') == if e.None? then After(r, plain, actions)
                                          else Land(After(r, plain, actions), id, e.value.0, e.value.1)
  {
    if e.Some? {
      if Physical(r, id).None? {
      } else {
        var a := actions'[|actions|];
        assert actions' == actions + [a];
        LandCommutes(LandActions(r.selection, actions), plain, id, a.rev, StatusOf(a));
      }
    }
  }

  lemma EmissionSettles(r: Round, preserve: Preserve, done: set<Id>, id: Id, s: map<Id, Selected>)
    requires id !in done && Settled(r, preserve, done, s)
    ensures var e := Emission(r, preserve, id);
            Settled(r, preserve, done + {id}, if e.None? then s else Land(s, id, e.value.0, e.value.1))
  {}

  /**
  The emissions of one round, over `ids` in order. What lands is the with-gap decision, up to preserved
  state, on every id the gap acts on, and nothing anywhere else.
  */
  method PlanAppends(r: Round, preserve: Preserve, ids: seq<Id>) returns (plain: seq<Event>, actions: seq<Action>)
    requires WellFormed(r) && KeepsId(preserve)
    requires forall a, b | 0 <= a < b < |ids| :: ids[a] != ids[b]
    requires forall id :: id in ids <==> id in r.withGap || id in r.withoutGap || id in r.targets
    ensures FreshRevisions(r, plain, actions) && NextRevisions(r, plain, actions)
    ensures |plain| + |actions| <= |ids|
    ensures Settled(r, preserve, Elements(ids), After(r, plain, actions))
    ensures forall id :: CarriesGap(r, preserve, id, After(r, plain, actions))
    ensures (forall id | id in Elements(ids) :: Emission(r, preserve, id).None?) ==> plain == [] && actions == []
  {
    plain, actions := [], [];
    for k := 0 to |ids|
      invariant |plain| + |actions| <= k
      invariant Progress(r, preserve, Elements(ids[..k]), plain, actions)
    {
      ElementsStep(ids, k);
      ghost var plain0, actions0 := plain, actions;
      plain, actions := Emit(r, preserve, ids[k], plain, actions);
      ProgressStep(r, preserve, Elements(ids[..k]), ids[k], plain0, actions0, plain, actions);
    }
    assert ids[..|ids|] == ids;
    forall id ensures CarriesGap(r, preserve, id, After(r, plain, actions)) {
      SettledCarries(r, preserve, Elements(ids), After(r, plain, actions), id);
    }
  }

  /** The emissions of the ids `done`: fresh, settled, on those ids, and none where none is due. */
  ghost predicate Progress(r: Round, preserve: Preserve, done: set<Id>, plain: seq<Event>, actions: seq<Action>) {
    && FreshRevisions(r, plain, actions)
    && Settled(r, preserve, done, After(r, plain, actions))
    && NextRevisions(r, plain, actions)
    && (forall q | 0 <= q < |plain| :: plain[q].id in done)
    && (forall q | 0 <= q < |actions| :: actions[q].id in done)
    && ((forall id | id in done :: Emission(r, preserve, id).None?) ==> plain == [] && actions == [])
  }

  lemma ProgressStep(r: Round, preserve: Preserve, done: set<Id>, id: Id, plain: seq<Event>, actions: seq<Action>,
                     plain': seq<Event>, actions': seq<Action>)
    requires id !in done && Progress(r, preserve, done, plain, actions) && FreshRevisions(r, plain', actions')
    requires plain <= plain' && forall q | |plain| <= q < |plain'| :: plain'[q].id == id
    requires actions <= actions' && forall q | |actions| <= q < |actions'| ::
               actions'[q].id == id && JustAbove(r, id, actions'[q].rev) && Moves(r, actions'[q])
    requires |plain'| + |actions'| <= |plain| + |actions| + 1
    requires var e := Emission(r, preserve, id);
             && (e.None? ==> plain' == plain && actions' == actions)
             && After(r, plain', actions') == if e.None? then After(r, plain, actions)
                                              else Land(After(r, plain, actions), id, e.value.0, e.value.1)
    ensures Progress(r, preserve, done + {id}, plain', actions')
  {
    EmissionSettles(r, preserve, done, id, After(r, plain, actions));
    NextStep(r, done, id, plain, actions, plain', actions');
    if forall x | x in done + {id} :: Emission(r, preserve, x).None? {
      assert forall x | x in done :: x in done + {id};
      assert id in done + {id};
    }
  }

  lemma NextStep(r: Round, done: set<Id>, id: Id, plain: seq<Event>, actions: seq<Action>, plain': seq<Event>, actions': seq<Action>)
    requires id !in done && NextRevisions(r, plain, actions) && FreshRevisions(r, plain', actions')
    requires forall q | 0 <= q < |plain| :: plain[q].id in done
    requires forall q | 0 <= q < |actions| :: actions[q].id in done
    requires plain <= plain' && forall q | |plain| <= q < |plain'| :: plain'[q].id == id
    requires actions <= actions' && forall q | |actions| <= q < |actions'| ::
               actions'[q].id == id && JustAbove(r, id, actions'[q].rev) && Moves(r, actions'[q])
    requires |plain'| + |actions'| <= |plain| + |actions| + 1
    ensures NextRevisions(r, plain', actions')
    ensures forall q | 0 <= q < |plain'| :: plain'[q].id in done + {id}
    ensures forall q | 0 <= q < |actions'| :: actions'[q].id in done + {id}
  {
    forall q | 0 <= q < |plain'| ensures plain'[q].id in done + {id} && Unseen(r, plain'[q].id) {
      PhysicalIs(r, plain'[q].id);
      assert q < |plain| ==> plain'[q] == plain[q];
    }
    forall q | 0 <= q < |actions'|
      ensures actions'[q].id in done + {id} && JustAbove(r, actions'[q].id, actions'[q].rev) && Moves(r, actions'[q])
    {
      assert q < |actions| ==> actions'[q] == actions[q];
    }
    forall k, q | 0 <= k < q < |plain'| ensures plain'[k].id != plain'[q].id {
      assert plain'[k] == plain[k] && (q < |plain| ==> plain'[q] == plain[q]);
    }
    forall k, q | 0 <= k < q < |actions'| ensures actions'[k].id != actions'[q].id {
      assert actions'[k] == actions[k] && (q < |actions| ==> actions'[q] == actions[q]);
    }
  }

  function DecisionIn(replay: map<Id, Event>, id: Id): Option<Event> {
    if id in replay then Some(replay[id]) else None
  }

  /**
  What a later round replays: the same decisions with the gap and from the planner, and without the gap, id by
  id, either what the first round saw there or what it saw with the gap. Selection and revisions are free.
  */
  ghost predicate ReplaysAgain(r: Round, again: Round) {
    && again.withGap == r.withGap && again.targets == r.targets && again.handled == r.handled
    && forall id :: DecisionIn(again.withoutGap, id) == DecisionIn(r.withoutGap, id)
                    || DecisionIn(again.withoutGap, id) == DecisionIn(r.withGap, id)
  }

  /** Planning again from what landed appends nothing, whichever of the decisions the gap now lets through. */
  lemma PlanningAgainIsEmpty(r: Round, preserve: Preserve, ids: set<Id>, again: Round, id: Id)
    requires Idempotent(preserve) && id in ids && Settled(r, preserve, ids, again.selection) && ReplaysAgain(r, again)
    ensures Emission(again, preserve, id).None?
  {
    assert DecisionIn(again.withoutGap, id) == DecisionIn(r.withoutGap, id) || DecisionIn(again.withoutGap, id) == DecisionIn(r.withGap, id);
    var owed := Owed(r, preserve, id);
    if owed.Some? && id !in r.targets && id in r.withGap {
      var d := r.withGap[id];
      var c := Current(r.selection, id);
      var carried := preserve(if c.Some? then c.value else d, d);
      assert preserve(d, d) == d && preserve(carried, d) == carried;
    }
  }

  /**
  The guard that skips a batch already completed never drops a change: a completed batch's revisions are
  selected or superseded, and this round's are above every one of them.
  */
  lemma CompletedBatchNeverMatches(r: Round, plain: seq<Event>, actions: seq<Action>, completed: set<seq<Action>>)
    requires FreshRevisions(r, plain, actions) && actions != []
    requires forall batch: seq<Action>, k | batch in completed && 0 <= k < |batch| ::
               batch[k].id in r.selection && batch[k].rev <= r.selection[batch[k].id].rev
    ensures actions !in completed
  {
    assert actions[0].rev > Physical(r, actions[0].id).value;
  }
}
