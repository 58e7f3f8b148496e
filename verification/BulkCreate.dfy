/** The bulk-create chain: one recursive run of mutators over shared slots, ended by one batch insert. */
module BulkCreate {
  import opened Wrappers

  datatype Error = NotAMutation | CheckFailed(builder: nat) | InsertFailed | Constraint | FromHook(text: string)

  type Outcome = Option<Error>

  /**
   * A hook, by what it does: it answers by itself, or it calls the next mutator, once, with the mutation it was given or
   * with something that is not an APIKey mutation, and then makes something of that mutator's answer.
   */
  datatype Hook = Answer(outcome: Outcome) | Call(foreign: bool, after: Outcome -> Outcome)

  /** A builder, as the chain sees it: its hooks, outermost first, and whether its fields pass `check`. */
  datatype Builder = Builder(hooks: seq<Hook>, checks: bool)

  /** The answer of `BatchCreate`: an error, or the ID values that end up in the specs. */
  datatype Insert = Rejected(isConstraint: bool) | Inserted(ids: seq<Option<int>>)

  // What the chain does, as a function

  /** The outcome of a mutator, whether the batch insert was attempted, how many slots are filled, which mutations got done. */
  datatype Effect = Effect(outcome: Outcome, attempted: bool, filled: nat, done: set<nat>)

  function InsertOutcome(insert: Insert): Outcome {
    match insert
    case Rejected(isConstraint) => Some(if isConstraint then Constraint else InsertFailed)
    case Inserted(_) => None
  }

  /** Mutator `i` from its hook `h` inwards; `foreign` says that the argument is not an APIKey mutation. */
  function Chain(builders: seq<Builder>, insert: Insert, i: nat, h: nat, foreign: bool): Effect
    requires i < |builders| && h <= |builders[i].hooks|
    decreases |builders| - i, |builders[i].hooks| - h
  {
    if h < |builders[i].hooks| then
      match builders[i].hooks[h]
      case Answer(outcome) => Effect(outcome, false, i, {})
      case Call(switched, after) =>
        var inner := Chain(builders, insert, i, h + 1, foreign || switched);
        inner.(outcome := after(inner.outcome))
    else if foreign then Effect(Some(NotAMutation), false, i, {})
    else if !builders[i].checks then Effect(Some(CheckFailed(i)), false, i, {})
    else
      var inner := if i + 1 < |builders| then Chain(builders, insert, i + 1, 0, false)
                   else Effect(InsertOutcome(insert), true, i + 1, {});
      if inner.outcome.Some? then inner else inner.(done := inner.done + {i})
  }

  /** What follows mutator `i`. */
  function Next(builders: seq<Builder>, insert: Insert, i: nat): Effect
    requires i < |builders|
  {
    if i + 1 < |builders| then Chain(builders, insert, i + 1, 0, false) else Effect(InsertOutcome(insert), true, i + 1, {})
  }

  lemma CoreIsNext(builders: seq<Builder>, insert: Insert, i: nat)
    requires i < |builders| && builders[i].checks
    ensures var e, next := Chain(builders, insert, i, |builders[i].hooks|, false), Next(builders, insert, i);
            e == if next.outcome.Some? then next else next.(done := next.done + {i})
  {
  }

  // What the function says about every run

  function AllFrom(i: nat, n: nat): (r: set<nat>)
    ensures forall k :: k in r <==> i <= k < n
    decreases n - i
  {
    if i >= n then {} else {i} + AllFrom(i + 1, n)
  }

  /** The batch insert is only attempted after every builder from `i` on passed its check, with every slot filled. */
  lemma {:induction false} AttemptMeansAllChecked(builders: seq<Builder>, insert: Insert, i: nat, h: nat, foreign: bool)
    requires i < |builders| && h <= |builders[i].hooks|
    ensures var e := Chain(builders, insert, i, h, foreign);
            && i <= e.filled <= |builders|
            && (forall k | k in e.done :: i <= k < e.filled)
            && (forall k | i <= k < e.filled :: builders[k].checks)
            && (e.attempted ==> e.filled == |builders|)
    decreases |builders| - i, |builders[i].hooks| - h
  {
    if h < |builders[i].hooks| {
      if builders[i].hooks[h].Call? {
        AttemptMeansAllChecked(builders, insert, i, h + 1, foreign || builders[i].hooks[h].foreign);
      }
    } else if !foreign && builders[i].checks && i + 1 < |builders| {
      AttemptMeansAllChecked(builders, insert, i + 1, 0, false);
    }
  }

  /** The hook never reports success without, or in spite of, the next mutator. */
  ghost predicate Honest(hook: Hook) {
    match hook
    case Answer(outcome) => outcome.Some?
    case Call(_, after) => forall o: Outcome | o.Some? :: after(o).Some?
  }

  /** With honest hooks, nothing is marked done unless the insert went through, and success means everything is done. */
  lemma {:induction false} HonestDoneMeansInserted(builders: seq<Builder>, insert: Insert, i: nat, h: nat, foreign: bool)
    requires i < |builders| && h <= |builders[i].hooks|
    requires forall k, j | 0 <= k < |builders| && 0 <= j < |builders[k].hooks| :: Honest(builders[k].hooks[j])
    ensures var e := Chain(builders, insert, i, h, foreign);
            && (e.done != {} ==> e.attempted && insert.Inserted?)
            && (e.outcome.None? ==> e.attempted && insert.Inserted? && e.done == AllFrom(i, |builders|))
    decreases |builders| - i, |builders[i].hooks| - h
  {
    if h < |builders[i].hooks| {
      assert Honest(builders[i].hooks[h]);
      if builders[i].hooks[h].Call? {
        HonestDoneMeansInserted(builders, insert, i, h + 1, foreign || builders[i].hooks[h].foreign);
      }
    } else if !foreign && builders[i].checks && i + 1 < |builders| {
      HonestDoneMeansInserted(builders, insert, i + 1, 0, false);
      assert AllFrom(i, |builders|) == AllFrom(i + 1, |builders|) + {i};
    }
  }

  // All or nothing

  /**
   * Honest, and a success that can reach the hook stays one. A hook that hands on something else than an APIKey mutation
   * may do with a success what it likes: the mutators behind it have none to report.
   */
  ghost predicate Safe(hook: Hook) {
    Honest(hook) && (hook.Call? && !hook.foreign ==> hook.after(None).None?)
  }

  ghost predicate AllSafe(builders: seq<Builder>) {
    forall k, j | 0 <= k < |builders| && 0 <= j < |builders[k].hooks| :: Safe(builders[k].hooks[j])
  }

  /** Mutators from `i` on: success with everything inserted and done, or failure with nothing inserted and nothing done. */
  predicate IsAllOrNothing(e: Effect, insert: Insert, i: nat, n: nat) {
    if e.outcome.None? then e.attempted && insert.Inserted? && e.done == AllFrom(i, n)
    else e.done == {} && !(e.attempted && insert.Inserted?)
  }

  /** The whole run is all-or-nothing. */
  predicate AllOrNothing(builders: seq<Builder>, insert: Insert) {
    builders != [] ==> IsAllOrNothing(Chain(builders, insert, 0, 0, false), insert, 0, |builders|)
  }

  /** Behind a hook that hands on something else, honest hooks report an error and nothing happens. */
  lemma {:induction false} ForeignRunFails(builders: seq<Builder>, insert: Insert, i: nat, h: nat)
    requires i < |builders| && h <= |builders[i].hooks| && AllSafe(builders)
    ensures var e := Chain(builders, insert, i, h, true);
            e.outcome.Some? && !e.attempted && e.done == {}
    decreases |builders[i].hooks| - h
  {
    if h < |builders[i].hooks| {
      assert Safe(builders[i].hooks[h]);
      if builders[i].hooks[h].Call? {
        ForeignRunFails(builders, insert, i, h + 1);
      }
    }
  }

  /** What a mutator answers when hooks that pass outcomes through hand it something else than an APIKey mutation. */
  lemma {:induction false} ForeignOutcome(builders: seq<Builder>, insert: Insert, i: nat, h: nat, foreign: bool)
    requires i < |builders| && h <= |builders[i].hooks|
    requires forall j | h <= j < |builders[i].hooks| :: builders[i].hooks[j].Call? && forall o: Outcome :: builders[i].hooks[j].after(o) == o
    requires foreign || exists j :: h <= j < |builders[i].hooks| && builders[i].hooks[j].foreign
    ensures Chain(builders, insert, i, h, foreign) == Effect(Some(NotAMutation), false, i, {})
    decreases |builders[i].hooks| - h
  {
    if h < |builders[i].hooks| {
      ForeignOutcome(builders, insert, i, h + 1, foreign || builders[i].hooks[h].foreign);
    }
  }

  /** With safe hooks, every run is all-or-nothing. */
  lemma {:induction false} SafeAllOrNothing(builders: seq<Builder>, insert: Insert, i: nat, h: nat)
    requires i < |builders| && h <= |builders[i].hooks| && AllSafe(builders)
    ensures IsAllOrNothing(Chain(builders, insert, i, h, false), insert, i, |builders|)
    decreases |builders| - i, |builders[i].hooks| - h
  {
    if h < |builders[i].hooks| {
      assert Safe(builders[i].hooks[h]);
      if builders[i].hooks[h].Call? {
        if builders[i].hooks[h].foreign {
          ForeignRunFails(builders, insert, i, h + 1);
        } else {
          SafeAllOrNothing(builders, insert, i, h + 1);
        }
      }
    } else if builders[i].checks {
      if i + 1 < |builders| {
        SafeAllOrNothing(builders, insert, i + 1, 0);
      }
      assert AllFrom(i, |builders|) == AllFrom(i + 1, |builders|) + {i};
    }
  }

  /** A hook that reports success over an error from behind it: success is reported with nothing inserted or done. */
  lemma HiddenErrorFakesSuccess(hook: Hook, error: Outcome, insert: Insert)
    requires hook.Call? && error.Some? && hook.after(error).None?
    ensures var builders := [Builder([hook, Answer(error)], true)];
            Safe(Answer(error)) && Chain(builders, insert, 0, 0, false) == Effect(None, false, 0, {}) && !AllOrNothing(builders, insert)
  {
    var builders := [Builder([hook, Answer(error)], true)];
    assert Chain(builders, insert, 0, 1, hook.foreign) == Effect(error, false, 0, {});
  }

  /** A hook that fails over a success from behind it: an error is reported with everything inserted and done. */
  lemma LateFailureReportsError(hook: Hook)
    requires hook.Call? && !hook.foreign && hook.after(None).Some?
    ensures var builders := [Builder([hook], true)];
            Chain(builders, Inserted([None]), 0, 0, false) == Effect(hook.after(None), true, 1, {0}) && !AllOrNothing(builders, Inserted([None]))
  {
    var builders := [Builder([hook], true)];
    assert Chain(builders, Inserted([None]), 0, 1, false) == Effect(None, true, 1, {0});
  }

  /** Every hook is `hook` or a safe one. */
  ghost predicate SafeBut(builders: seq<Builder>, hook: Hook) {
    forall k, j | 0 <= k < |builders| && 0 <= j < |builders[k].hooks| ::
      builders[k].hooks[j] == hook || Safe(builders[k].hooks[j])
  }

  /** A hook that is not safe breaks some run in which all other hooks are safe. */
  lemma UnsafeHookBreaksARun(hook: Hook) returns (builders: seq<Builder>, insert: Insert)
    requires !Safe(hook)
    ensures SafeBut(builders, hook) && !AllOrNothing(builders, insert)
  {
    builders, insert := [Builder([hook], true)], Inserted([None]);
    if hook.Answer? {
      assert Chain(builders, insert, 0, 0, false) == Effect(None, false, 0, {});
    } else if !hook.foreign && hook.after(None).Some? {
      LateFailureReportsError(hook);
    } else {
      var error: Outcome :| error.Some? && hook.after(error).None?;
      builders := [Builder([hook, Answer(error)], true)];
      HiddenErrorFakesSuccess(hook, error, insert);
    }
  }

  /** Exactly the safe hooks can be added to any safe ones without losing that every run is all-or-nothing. */
  lemma AllOrNothingIffSafe(hook: Hook)
    ensures Safe(hook) <==> forall builders, insert | SafeBut(builders, hook) :: AllOrNothing(builders, insert)
  {
    if Safe(hook) {
      forall builders, insert | SafeBut(builders, hook) ensures AllOrNothing(builders, insert) {
        if builders != [] {
          SafeAllOrNothing(builders, insert, 0, 0);
        }
      }
    } else {
      var builders, insert := UnsafeHookBreaksARun(hook);
    }
  }

  ghost predicate PassThrough(hook: Hook) {
    hook.Call? && !hook.foreign && forall o: Outcome :: hook.after(o) == o
  }

  /** The first builder at or after `i` that fails its check, or the number of builders. */
  function FirstFailing(builders: seq<Builder>, i: nat): (k: nat)
    requires i <= |builders|
    ensures i <= k <= |builders| && (forall j | i <= j < k :: builders[j].checks) && (k < |builders| ==> !builders[k].checks)
    decreases |builders| - i
  {
    if i < |builders| && builders[i].checks then FirstFailing(builders, i + 1) else i
  }

  /** With pass-through hooks, the outcome is the first failed check or, if all pass, the answer of the insert. */
  lemma {:induction false} PassThroughOutcome(builders: seq<Builder>, insert: Insert, i: nat, h: nat)
    requires i < |builders| && h <= |builders[i].hooks|
    requires forall k, j | 0 <= k < |builders| && 0 <= j < |builders[k].hooks| :: PassThrough(builders[k].hooks[j])
    ensures var e, k := Chain(builders, insert, i, h, false), FirstFailing(builders, i);
            && e.attempted == (k == |builders|)
            && e.outcome ==
               (if k < |builders| then Some(CheckFailed(k))
                else if insert.Inserted? then None
                else if insert.isConstraint then Some(Constraint)
                else Some(InsertFailed))
            && e.filled == k
    decreases |builders| - i, |builders[i].hooks| - h
  {
    if h < |builders[i].hooks| {
      assert PassThrough(builders[i].hooks[h]);
      PassThroughOutcome(builders, insert, i, h + 1);
    } else if builders[i].checks && i + 1 < |builders| {
      PassThroughOutcome(builders, insert, i + 1, 0);
    }
  }

  /** A hook that reports success without calling on leaves the first mutation done although nothing was inserted. */
  lemma SilentHookFakesSuccess(insert: Insert)
    ensures var builders := [Builder([], true), Builder([Answer(None)], true)];
            var e := Chain(builders, insert, 0, 0, false);
            e.outcome.None? && !e.attempted && e.done == {0}
  {
    var builders := [Builder([], true), Builder([Answer(None)], true)];
    assert Chain(builders, insert, 1, 0, false) == Effect(None, false, 1, {});
  }

  // The chain over shared state

  class Node {
    var id: int
    const owner: nat

    constructor (owner: nat)
      ensures this.owner == owner && id == 0
    {
      this.owner, id := owner, 0;
    }
  }

  /** A create-spec, told apart by the builder it was made from. */
  datatype Spec = Spec(owner: nat)

  /** A full batch: slot `k` holds the spec of builder `k`. */
  function OwnSpecs(n: nat): (r: seq<Option<Spec>>)
    ensures |r| == n && forall k | 0 <= k < n :: r[k] == Some(Spec(k))
  {
    seq(n, k requires 0 <= k < n => Some(Spec(k)))
  }

  class Mutation {
    var done: bool
    var idOf: Node?

    constructor ()
      ensures !done && idOf == null
    {
      done, idOf := false, null;
    }
  }

  class Bulk {
    const builders: seq<Builder>
    const insert: Insert
    const mutations: seq<Mutation>
    const nodes: array<Node?>
    const specs: array<Option<Spec>>
    /** The ID values of the specs, which the driver sets. */
    var idValues: seq<Option<int>>
    /** The batches handed to the driver, in order. */
    var batches: seq<seq<Option<Spec>>>

    constructor (builders: seq<Builder>, insert: Insert, mutations: seq<Mutation>)
      requires |mutations| == |builders| && (insert.Inserted? ==> |insert.ids| == |builders|)
      requires forall i, j | 0 <= i < j < |mutations| :: mutations[i] != mutations[j]
      ensures Shape() && fresh(nodes) && fresh(specs) && batches == []
      ensures this.builders == builders && this.insert == insert && this.mutations == mutations
      ensures forall k | 0 <= k < |builders| :: idValues[k] == None && specs[k] == None && nodes[k] == null
    {
      this.builders, this.insert, this.mutations := builders, insert, mutations;
      nodes := new Node?[|builders|](_ => null);
      specs := new Option<Spec>[|builders|](_ => None);
      idValues := seq(|builders|, _ => None);
      batches := [];
    }

    ghost predicate Shape()
      reads this
    {
      |mutations| == |builders| == nodes.Length == specs.Length == |idValues| &&
      (forall i, j | 0 <= i < j < |mutations| :: mutations[i] != mutations[j]) &&
      (insert.Inserted? ==> |insert.ids| == |builders|)
    }

    /** `sqlgraph.BatchCreate` on the shared slots. */
    method BatchCreate() returns (outcome: Outcome)
      requires Shape()
      modifies this`batches, this`idValues
      ensures Shape() && outcome == InsertOutcome(insert) && batches == old(batches) + [specs[..]]
      ensures idValues == if insert.Inserted? then insert.ids else old(idValues)
    {
      batches := batches + [specs[..]];
      if insert.Inserted? {
        idValues := insert.ids;
      }
      outcome := InsertOutcome(insert);
    }

    /** The state of mutation `k` once it is done. */
    ghost predicate IsDone(k: nat)
      requires k < |mutations| && k < nodes.Length && k < |idValues|
      reads this, nodes, mutations[k], nodes[k]
    {
      mutations[k].done && nodes[k] != null && nodes[k].owner == k && mutations[k].idOf == nodes[k] &&
      nodes[k].id == if idValues[k].Some? then idValues[k].value else 0
    }

    /** The shared state has changed as `e` says, from slot `i` on. */
    twostate predicate Follows(i: nat, e: Effect)
      requires |mutations| == |builders| == nodes.Length == specs.Length == |idValues|
      reads this, nodes, specs, set k | 0 <= k < |mutations| :: mutations[k], set k | 0 <= k < nodes.Length :: nodes[k]
    {
      batches == old(batches) + (if e.attempted then [specs[..]] else []) &&
      idValues == (if e.attempted && insert.Inserted? then insert.ids else old(idValues)) &&
      (forall k | 0 <= k < |builders| :: specs[k] == if i <= k < e.filled then Some(Spec(k)) else old(specs[k])) &&
      (forall k | 0 <= k < |builders| && !(i <= k < e.filled) :: nodes[k] == old(nodes[k])) &&
      (forall k | i <= k < |builders| && k < e.filled :: nodes[k] != null && fresh(nodes[k])) &&
      forall k | i <= k < |builders| ::
        if k in e.done then IsDone(k) else mutations[k].done == old(mutations[k].done) && mutations[k].idOf == old(mutations[k].idOf)
    }

    /** Mutator `i` from hook `h` inwards: the shared state follows `Chain`. */
    method Mutate(i: nat, h: nat, foreign: bool) returns (outcome: Outcome)
      requires Shape() && i < |builders| && h <= |builders[i].hooks|
      requires forall k | 0 <= k < |builders| :: idValues[k] == None
      modifies this`batches, this`idValues, nodes, specs, set k | i <= k < |mutations| :: mutations[k]
      ensures Shape() && outcome == Chain(builders, insert, i, h, foreign).outcome
      ensures Follows(i, Chain(builders, insert, i, h, foreign))
      decreases |builders| - i, |builders[i].hooks| - h, 3
    {
      if h < |builders[i].hooks| {
        match builders[i].hooks[h] {
          case Answer(answer) => outcome := answer;
          case Call(switched, after) =>
            outcome := Mutate(i, h + 1, foreign || switched);
            outcome := after(outcome);
        }
      } else if foreign {
        outcome := Some(NotAMutation);
      } else {
        outcome := Create(i);
      }
    }

    /** The body of mutator `i`, inside all its hooks. */
    method Create(i: nat) returns (outcome: Outcome)
      requires Shape() && i < |builders|
      requires forall k | 0 <= k < |builders| :: idValues[k] == None
      modifies this`batches, this`idValues, nodes, specs, set k | i <= k < |mutations| :: mutations[k]
      ensures Shape() && outcome == Chain(builders, insert, i, |builders[i].hooks|, false).outcome
      ensures Follows(i, Chain(builders, insert, i, |builders[i].hooks|, false))
      decreases |builders| - i, 0, 2
    {
      if !builders[i].checks {
        return Some(CheckFailed(i));
      }
      CoreIsNext(builders, insert, i);
      outcome := Place(i);
      if outcome.None? {
        Finish(i);
      }
    }

    /** Fill slot `i`, then go on. */
    method Place(i: nat) returns (outcome: Outcome)
      requires Shape() && i < |builders|
      requires forall k | 0 <= k < |builders| :: idValues[k] == None
      modifies this`batches, this`idValues, nodes, specs, set k | i < k < |mutations| :: mutations[k]
      ensures Shape() && outcome == Next(builders, insert, i).outcome
      ensures Follows(i, Next(builders, insert, i))
      ensures nodes[i] != null && nodes[i].owner == i && nodes[i].id == 0
      ensures i + 1 <= Next(builders, insert, i).filled <= |builders|
      ensures forall k | k in Next(builders, insert, i).done :: i < k < Next(builders, insert, i).filled
      decreases |builders| - i, 0, 1
    {
      nodes[i] := new Node(i);
      specs[i] := Some(Spec(i));
      outcome := Proceed(i);
    }

    /** On to the next mutator, or to the driver after the last one. */
    method Proceed(i: nat) returns (outcome: Outcome)
      requires Shape() && i < |builders|
      requires forall k | 0 <= k < |builders| :: idValues[k] == None
      modifies this`batches, this`idValues, nodes, specs, set k | i < k < |mutations| :: mutations[k]
      ensures Shape() && outcome == Next(builders, insert, i).outcome
      ensures Follows(i + 1, Next(builders, insert, i))
      ensures i + 1 <= Next(builders, insert, i).filled <= |builders|
      ensures forall k | k in Next(builders, insert, i).done :: i < k < Next(builders, insert, i).filled
      decreases |builders| - i, 0, 0
    {
      if i + 1 < |builders| {
        AttemptMeansAllChecked(builders, insert, i + 1, 0, false);
        outcome := Mutate(i + 1, 0, false);
      } else {
        outcome := BatchCreate();
      }
    }

    /** What a mutator does once everything after it has succeeded. */
    method Finish(i: nat)
      requires Shape() && i < |builders| && nodes[i] != null && nodes[i].owner == i && nodes[i].id == 0
      modifies mutations[i], nodes[i]
      ensures IsDone(i)
    {
      mutations[i].idOf := nodes[i];
      if idValues[i].Some? {
        nodes[i].id := idValues[i].value;
      }
      mutations[i].done := true;
    }
  }

  /**
   * `APIKeyCreateBulk.Save`. At most one batch reaches the driver, and then with every builder's own spec in its slot;
   * exactly the mutations that `Chain` calls done are done, each with the ID of its spec.
   */
  method Save(pending: Outcome, builders: seq<Builder>, insert: Insert, mutations: seq<Mutation>) returns (bulk: Bulk?, outcome: Outcome)
    requires |mutations| == |builders| && (insert.Inserted? ==> |insert.ids| == |builders|)
    requires forall i, j | 0 <= i < j < |mutations| :: mutations[i] != mutations[j]
    requires forall k | 0 <= k < |mutations| :: !mutations[k].done
    modifies set k | 0 <= k < |mutations| :: mutations[k]
    ensures pending.Some? ==> outcome == pending && bulk == null && forall k | 0 <= k < |mutations| :: !mutations[k].done
    ensures pending.None? ==> bulk != null && bulk.Shape() && bulk.builders == builders && bulk.mutations == mutations
    ensures pending.None? && builders == [] ==> outcome.None? && bulk.batches == []
    ensures pending.None? && builders != [] ==>
              var e := Chain(builders, insert, 0, 0, false);
              outcome == e.outcome &&
              bulk.batches == (if e.attempted then [OwnSpecs(|builders|)] else []) &&
              forall k | 0 <= k < |mutations| :: (mutations[k].done <==> k in e.done) && (k in e.done ==> bulk.IsDone(k))
  {
    if pending.Some? {
      return null, pending;
    }
    bulk := new Bulk(builders, insert, mutations);
    outcome := None;
    if |builders| > 0 {
      AttemptMeansAllChecked(builders, insert, 0, 0, false);
      outcome := bulk.Mutate(0, 0, false);
      if Chain(builders, insert, 0, 0, false).attempted {
        assert bulk.specs[..] == OwnSpecs(|builders|);
      }
    }
  }
}
