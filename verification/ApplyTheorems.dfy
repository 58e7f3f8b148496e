/** What applying a plan guarantees: nothing outside the zone changes, the inventory stays, a second apply does nothing, targets arrive. */
module ApplyTheorems {
  import opened Wrappers
  import opened Text
  import opened FileTree
  import opened LineEndings
  import opened InventoryWalk
  import opened PathRules
  import opened CompareTrees
  import opened SyncPlan
  import opened PlanDocument
  import opened ApplyPlan

  predicate AllInZone(steps: seq<Step>) {
    forall i | 0 <= i < |steps| :: InZone(steps[i])
  }

  lemma StepsAreInZone(reader: PathReader, rows: seq<PlanRow>)
    ensures AllInZone(StepsOf(reader, rows))
  {
    forall i | 0 <= i < |rows| ensures InZone(StepsOf(reader, rows)[i]) {
      DecideInZone(reader, rows[i]);
    }
  }

  // Nothing outside the zone changes

  lemma {:induction false} OutsideZoneUnchanged(snapshot: Node, tree: Node, steps: seq<Step>, q: Path)
    requires AllInZone(steps) && !(ZONE <= q)
    ensures FileAt(Run(snapshot, tree, steps).tree, q) == FileAt(tree, q)
    decreases |steps|
  {
    if steps != [] && StepError(snapshot, tree, steps[0]).None? {
      var next := tree;
      if steps[0].Copy? {
        var d, content := Destination(tree, steps[0].source, steps[0].target), FileAt(snapshot, steps[0].source).value;
        next := Put(tree, d, content);
        assert InZone(steps[0]) && ZONE <= d;
        PutFileAt(tree, d, content, q);
      }
      OutsideZoneUnchanged(snapshot, next, steps[1..], q);
    }
  }

  lemma {:induction false} RunWellFormed(snapshot: Node, tree: Node, steps: seq<Step>)
    requires AllInZone(steps) && WellFormed(tree) && snapshot.Dir?
    ensures WellFormed(Run(snapshot, tree, steps).tree)
    decreases |steps|
  {
    if steps != [] && StepError(snapshot, tree, steps[0]).None? {
      var next := tree;
      if steps[0].Copy? {
        assert InZone(steps[0]);
        var d, content := Destination(tree, steps[0].source, steps[0].target), FileAt(snapshot, steps[0].source).value;
        next := Put(tree, d, content);
        assert steps[0].source != [] && IsName(BaseName(steps[0].source));
        PutWellFormed(tree, d, content);
      }
      RunWellFormed(snapshot, next, steps[1..]);
    }
  }

  /** Two trees with the same kept files have the same inventory. */
  lemma SameKeptSameInventory(a: Node, b: Node, admit: Filter)
    requires WellFormed(a) && WellFormed(b)
    requires forall p :: Kept(a, admit, p) <==> Kept(b, admit, p)
    requires forall p | Kept(a, admit, p) :: FileAt(a, p) == FileAt(b, p)
    ensures InventoryOf(a, admit) == InventoryOf(b, admit)
  {
    assert KeptPaths(a, admit) == KeptPaths(b, admit);
    var m := InventoryOf(b, admit);
    assert Represents(a, m, KeptPaths(a, admit));
    RepresentsUnique(a, InventoryOf(a, admit), m, KeptPaths(a, admit));
  }

  lemma ZoneIsPruned(tree: Node, admit: Filter, p: Path)
    requires !admit(Joined(ZONE)) && ZONE <= p
    ensures !Kept(tree, admit, p)
  {
    assert p[..|ZONE|] == ZONE;
  }

  /** A run, finished or stopped, changes no inventory that leaves the zone out. */
  lemma {:induction false} RunKeepsInventory(snapshot: Node, tree: Node, steps: seq<Step>, admit: Filter)
    requires AllInZone(steps) && WellFormed(tree) && snapshot.Dir? && !admit(Joined(ZONE))
    ensures WellFormed(Run(snapshot, tree, steps).tree)
    ensures InventoryOf(Run(snapshot, tree, steps).tree, admit) == InventoryOf(tree, admit)
  {
    var final := Run(snapshot, tree, steps).tree;
    RunWellFormed(snapshot, tree, steps);
    forall p ensures Kept(final, admit, p) <==> Kept(tree, admit, p)
             ensures Kept(final, admit, p) ==> FileAt(final, p) == FileAt(tree, p)
    {
      if ZONE <= p {
        ZoneIsPruned(tree, admit, p);
        ZoneIsPruned(final, admit, p);
      } else {
        OutsideZoneUnchanged(snapshot, tree, steps, p);
      }
    }
    SameKeptSameInventory(final, tree, admit);
  }

  lemma ZoneExcluded(prefixes: seq<string>)
    requires Joined(ZONE) in prefixes
    ensures !AdmittedBy(prefixes)(Joined(ZONE))
  {
    var i :| 0 <= i < |prefixes| && prefixes[i] == Joined(ZONE);
    assert Excluded(Joined(ZONE), prefixes);
  }

  /**
   * Applying any document to the very tree that is being compared changes neither the rows of the comparison nor the
   * verdict of the current-tree validator, even when the apply is stopped by an error.
   */
  lemma ApplyKeepsInventory(digest: Hasher, reader: PathReader, official: map<string, Bytes>, rows: seq<FileRow>,
                            planned: seq<PlanRow>, snapshot: Node, tree: Node, prefixes: seq<string>)
    requires WellFormed(tree) && snapshot.Dir? && Joined(ZONE) in prefixes
    ensures var after := Run(snapshot, tree, StepsOf(reader, planned)).tree;
            && WellFormed(after)
            && Compared(digest, reader, official, InventoryOf(after, AdmittedBy(prefixes))) ==
               Compared(digest, reader, official, InventoryOf(tree, AdmittedBy(prefixes)))
            && (TreeMatches(digest, rows, InventoryOf(after, AdmittedBy(prefixes))) <==>
                TreeMatches(digest, rows, InventoryOf(tree, AdmittedBy(prefixes))))
  {
    StepsAreInZone(reader, planned);
    ZoneExcluded(prefixes);
    RunKeepsInventory(snapshot, tree, StepsOf(reader, planned), AdmittedBy(prefixes));
  }

  // A second apply does nothing

  /** Same directories, same files, contents aside. */
  ghost predicate SameShape(a: Node, b: Node) {
    (forall q :: IsDirAt(a, q) <==> IsDirAt(b, q)) && (forall q :: FileAt(a, q).Some? <==> FileAt(b, q).Some?)
  }

  lemma SameShapeSameStep(snapshot: Node, a: Node, b: Node, step: Step)
    requires SameShape(a, b) && a.Dir? && b.Dir?
    ensures StepError(snapshot, a, step) == StepError(snapshot, b, step)
    ensures step.Copy? ==> Destination(a, step.source, step.target) == Destination(b, step.source, step.target)
  {
    if step.Copy? {
      var d := Destination(a, step.source, step.target);
      assert Destination(b, step.source, step.target) == d;
      if d != [] {
        WritableIff(a, d);
        WritableIff(b, d);
      }
    }
  }

  lemma RewriteKeepsShape(tree: Node, p: Path, content: Bytes)
    requires p != [] && FileAt(tree, p).Some? && Writable(tree, p)
    ensures SameShape(tree, Put(tree, p, content))
  {
    WritableIff(tree, p);
    forall q ensures IsDirAt(tree, q) <==> IsDirAt(Put(tree, p, content), q) {
      PutIsDirAt(tree, p, content, q);
      if q < p { AncestorIsDir(tree, q, p); }
    }
    forall q ensures FileAt(tree, q).Some? <==> FileAt(Put(tree, p, content), q).Some? {
      PutFileAt(tree, p, content, q);
    }
  }

  lemma {:induction false} AncestorIsDir(tree: Node, q: Path, p: Path)
    requires q < p && Lookup(tree, p).Some?
    ensures IsDirAt(tree, q)
    decreases |q|
  {
    if q != [] {
      assert q[1..] < p[1..];
      AncestorIsDir(tree.entries[p[0]], q[1..], p[1..]);
    }
  }

  /** The run as plain writes. */
  function PutAll(tree: Node, writes: seq<Write>): Node
    decreases |writes|
  {
    if writes == [] then tree
    else if Writable(tree, writes[0].path) then PutAll(Put(tree, writes[0].path, writes[0].content), writes[1..])
    else tree
  }

  lemma {:induction false} RunIsPutAll(snapshot: Node, tree: Node, steps: seq<Step>)
    ensures var ran := Run(snapshot, tree, steps);
            ran.tree == PutAll(tree, ran.writes) && forall w | w in ran.writes :: w.path != [] && FileAt(ran.tree, w.path).Some?
    decreases |steps|
  {
    if steps != [] && StepError(snapshot, tree, steps[0]).None? {
      var next := tree;
      if steps[0].Copy? {
        var d, content := Destination(tree, steps[0].source, steps[0].target), FileAt(snapshot, steps[0].source).value;
        next := Put(tree, d, content);
        RunGrows(snapshot, next, steps[1..]);
        DestinationSettled(tree, steps[0].source, steps[0].target, content, Run(snapshot, next, steps[1..]).tree);
        var ran := Run(snapshot, tree, steps);
        assert ran.writes[1..] == Run(snapshot, next, steps[1..]).writes;
      }
      RunIsPutAll(snapshot, next, steps[1..]);
    }
  }

  /** From any tree of the final shape, the same steps make the same writes and stop at the same place. */
  lemma {:induction false} ReplaySameWrites(snapshot: Node, tree: Node, steps: seq<Step>, again: Node)
    requires tree.Dir? && again.Dir? && SameShape(again, Run(snapshot, tree, steps).tree)
    ensures var ran, replay := Run(snapshot, tree, steps), Run(snapshot, again, steps);
            replay.writes == ran.writes && replay.error == ran.error && replay.finished == ran.finished
    decreases |steps|
  {
    var final := Run(snapshot, tree, steps).tree;
    if steps == [] {
    } else if StepError(snapshot, tree, steps[0]).Some? {
      SameShapeSameStep(snapshot, tree, again, steps[0]);
    } else if steps[0].Copy? {
      var source, target := steps[0].source, steps[0].target;
      var d, content := Destination(tree, source, target), FileAt(snapshot, source).value;
      var next := Put(tree, d, content);
      RunGrows(snapshot, next, steps[1..]);
      DestinationSettled(tree, source, target, content, final);
      assert Destination(again, source, target) == d;
      ExistingFileWritable(again, d);
      RewriteKeepsShape(again, d, content);
      ReplaySameWrites(snapshot, next, steps[1..], Put(again, d, content));
    } else {
      ReplaySameWrites(snapshot, tree, steps[1..], again);
    }
  }

  function LastContent(writes: seq<Write>, p: Path): Option<Bytes> {
    if writes == [] then None
    else
      var rest := LastContent(writes[1..], p);
      if rest.Some? then rest else if writes[0].path == p then Some(writes[0].content) else None
  }

  predicate AllExist(tree: Node, writes: seq<Write>) {
    forall w | w in writes :: w.path != [] && FileAt(tree, w.path).Some?
  }

  /** A write that is overwritten later makes no difference. */
  lemma {:induction false} OverwrittenWriteAbsorbed(tree: Node, p: Path, content: Bytes, writes: seq<Write>)
    requires p != [] && FileAt(tree, p).Some? && Writable(tree, p) && AllExist(tree, writes)
    requires LastContent(writes, p).Some?
    ensures PutAll(Put(tree, p, content), writes) == PutAll(tree, writes)
    decreases |writes|
  {
    var w := writes[0];
    ExistingFileWritable(tree, w.path);
    if w.path == p {
      PutTwice(tree, p, content, w.content);
    } else {
      PutCommutes(tree, p, content, w.path, w.content);
      var next := Put(tree, w.path, w.content);
      PutGrows(tree, w.path, w.content);
      assert AllExist(next, writes[1..]);
      OverwrittenWriteAbsorbed(next, p, content, writes[1..]);
    }
  }

  /** Writing what is already there, each path's last content last, changes nothing. */
  lemma {:induction false} RewritingChangesNothing(tree: Node, writes: seq<Write>)
    requires AllExist(tree, writes)
    requires forall w | w in writes :: LastContent(writes, w.path) == FileAt(tree, w.path)
    ensures PutAll(tree, writes) == tree
    decreases |writes|
  {
    if writes != [] {
      var w, rest := writes[0], writes[1..];
      assert w in writes;
      ExistingFileWritable(tree, w.path);
      forall v | v in rest ensures LastContent(rest, v.path) == FileAt(tree, v.path) {
        LastContentOfMember(rest, v);
      }
      RewritingChangesNothing(tree, rest);
      if LastContent(rest, w.path).Some? {
        OverwrittenWriteAbsorbed(tree, w.path, w.content, rest);
      } else {
        PutSame(tree, w.path, w.content);
      }
    }
  }

  lemma {:induction false} LastContentOfMember(writes: seq<Write>, w: Write)
    requires w in writes
    ensures LastContent(writes, w.path).Some?
  {
    if writes[0] != w {
      LastContentOfMember(writes[1..], w);
    }
  }

  lemma {:induction false} FinalContentIsLast(snapshot: Node, tree: Node, steps: seq<Step>, p: Path)
    ensures var ran := Run(snapshot, tree, steps);
            var last := LastContent(ran.writes, p);
            FileAt(ran.tree, p) == if last.Some? then last else FileAt(tree, p)
    decreases |steps|
  {
    if steps != [] && StepError(snapshot, tree, steps[0]).None? {
      var next := tree;
      if steps[0].Copy? {
        var d, content := Destination(tree, steps[0].source, steps[0].target), FileAt(snapshot, steps[0].source).value;
        next := Put(tree, d, content);
        PutFileAt(tree, d, content, p);
        assert Run(snapshot, tree, steps).writes[1..] == Run(snapshot, next, steps[1..]).writes;
      }
      FinalContentIsLast(snapshot, next, steps[1..], p);
    }
  }

  lemma {:induction false} RunStaysDir(snapshot: Node, tree: Node, steps: seq<Step>)
    requires tree.Dir?
    ensures Run(snapshot, tree, steps).tree.Dir?
  {
    RunGrows(snapshot, tree, steps);
    assert IsDirAt(tree, []);
  }

  /** Applying the same plan again, from the same snapshot, leaves the worktree as it is and ends the same way. */
  lemma SecondApplyChangesNothing(snapshot: Node, tree: Node, steps: seq<Step>)
    requires tree.Dir?
    ensures var first := Run(snapshot, tree, steps);
            var second := Run(snapshot, first.tree, steps);
            second.tree == first.tree && second.error == first.error && second.finished == first.finished
  {
    var first := Run(snapshot, tree, steps);
    RunStaysDir(snapshot, tree, steps);
    ReplaySameWrites(snapshot, tree, steps, first.tree);
    RunIsPutAll(snapshot, tree, steps);
    RunIsPutAll(snapshot, first.tree, steps);
    forall w | w in first.writes ensures LastContent(first.writes, w.path) == FileAt(first.tree, w.path) {
      FinalContentIsLast(snapshot, tree, steps, w.path);
      LastContentOfMember(first.writes, w);
    }
    RewritingChangesNothing(first.tree, first.writes);
  }
}
