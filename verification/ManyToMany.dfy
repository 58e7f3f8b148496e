/** Eager loading of a many-to-many edge: one joined query for all keys, then distribution through index maps. */
module ManyToMany {
  import opened Wrappers

  datatype Platform = Platform(id: int, name: string)

  /** A row of the joined query: the key it belongs to, and the platform columns. */
  datatype JoinRow = JoinRow(outValue: int, platform: Platform)

  class ApiKey {
    const id: int
    var platforms: seq<Platform>

    constructor (id: int)
      ensures this.id == id && platforms == []
    {
      this.id := id;
      platforms := [];
    }
  }

  // What the edge should hold

  predicate Seen(rows: seq<JoinRow>, pid: int) {
    exists i :: 0 <= i < |rows| && rows[i].platform.id == pid
  }

  predicate Linked(rows: seq<JoinRow>, key: int, pid: int) {
    exists i :: 0 <= i < |rows| && rows[i].outValue == key && rows[i].platform.id == pid
  }

  /** Each platform once, as its first row gives it. */
  function FirstPlatforms(rows: seq<JoinRow>): seq<Platform> {
    if rows == [] then []
    else
      var init, last := rows[..|rows| - 1], rows[|rows| - 1];
      FirstPlatforms(init) + if Seen(init, last.platform.id) then [] else [last.platform]
  }

  function LinkedOnly(platforms: seq<Platform>, rows: seq<JoinRow>, key: int): seq<Platform> {
    if platforms == [] then []
    else
      var last := platforms[|platforms| - 1];
      LinkedOnly(platforms[..|platforms| - 1], rows, key) + if Linked(rows, key, last.id) then [last] else []
  }

  /** The platforms related to a key, in the order in which the batch first mentions them. */
  function Related(rows: seq<JoinRow>, key: int): seq<Platform> {
    LinkedOnly(FirstPlatforms(rows), rows, key)
  }

  lemma SeenAppend(rows: seq<JoinRow>, last: JoinRow)
    ensures forall pid :: Seen(rows + [last], pid) <==> Seen(rows, pid) || pid == last.platform.id
  {
    var more := rows + [last];
    forall pid ensures Seen(more, pid) <==> Seen(rows, pid) || pid == last.platform.id {
      if Seen(rows, pid) {
        var i :| 0 <= i < |rows| && rows[i].platform.id == pid;
        assert more[i].platform.id == pid;
      }
      if pid == last.platform.id { assert more[|rows|].platform.id == pid; }
    }
  }

  lemma LinkedAppend(rows: seq<JoinRow>, last: JoinRow, key: int, pid: int)
    ensures Linked(rows + [last], key, pid) <==> Linked(rows, key, pid) || (key == last.outValue && pid == last.platform.id)
  {
    var more := rows + [last];
    if Linked(rows, key, pid) {
      var i :| 0 <= i < |rows| && rows[i].outValue == key && rows[i].platform.id == pid;
      assert more[i].outValue == key && more[i].platform.id == pid;
    }
    if key == last.outValue && pid == last.platform.id { assert more[|rows|] == last; }
  }

  predicate DistinctIds(platforms: seq<Platform>) {
    forall i, j | 0 <= i < j < |platforms| :: platforms[i].id != platforms[j].id
  }

  predicate HasId(platforms: seq<Platform>, pid: int) {
    exists i :: 0 <= i < |platforms| && platforms[i].id == pid
  }

  lemma HasIdAppend(platforms: seq<Platform>, last: Platform, pid: int)
    ensures HasId(platforms + [last], pid) <==> HasId(platforms, pid) || pid == last.id
  {
    if HasId(platforms, pid) {
      var i :| 0 <= i < |platforms| && platforms[i].id == pid;
      assert (platforms + [last])[i].id == pid;
    }
    if pid == last.id { assert (platforms + [last])[|platforms|].id == pid; }
  }

  lemma {:induction false} FirstPlatformsExact(rows: seq<JoinRow>)
    ensures forall pid :: HasId(FirstPlatforms(rows), pid) <==> Seen(rows, pid)
    ensures DistinctIds(FirstPlatforms(rows))
    ensures forall k | 0 <= k < |FirstPlatforms(rows)| :: Seen(rows, FirstPlatforms(rows)[k].id)
  {
    if rows != [] {
      var init, last := rows[..|rows| - 1], rows[|rows| - 1];
      assert rows == init + [last];
      FirstPlatformsExact(init);
      SeenAppend(init, last);
      forall pid ensures HasId(FirstPlatforms(rows), pid) <==> Seen(rows, pid) {
        HasIdAppend(FirstPlatforms(init), last.platform, pid);
        assert FirstPlatforms(init) + [] == FirstPlatforms(init);
      }
    }
  }

  // Loading

  predicate IsLast(nodes: seq<ApiKey>, i: int)
    requires 0 <= i < |nodes|
  {
    forall j | i < j < |nodes| :: nodes[j].id != nodes[i].id
  }

  /** `byID`: the last node of an ID wins. */
  ghost predicate IsIndex(nodes: seq<ApiKey>, byID: map<int, ApiKey>) {
    (forall k | k in byID :: byID[k].id == k && exists i :: 0 <= i < |nodes| && nodes[i] == byID[k] && IsLast(nodes, i)) &&
    forall i | 0 <= i < |nodes| :: nodes[i].id in byID
  }

  predicate DistinctNodes(nodes: seq<ApiKey>) {
    forall i, j | 0 <= i < j < |nodes| :: nodes[i] != nodes[j]
  }

  /** Every row belongs to one of the keys, as the `IN` clause of the query demands. */
  predicate RowsOfKeys(nodes: seq<ApiKey>, rows: seq<JoinRow>) {
    forall r | 0 <= r < |rows| :: exists i :: 0 <= i < |nodes| && nodes[i].id == rows[r].outValue
  }

  datatype LoadError<E> = QueryFailed(error: E) | UnexpectedPlatform(id: int)

  /** The neighbours before position `k` are platforms of the rows, and each key has those that are linked to it. */
  predicate HandedOut(nodes: seq<ApiKey>, rows: seq<JoinRow>, neighbors: seq<Platform>, k: int)
    reads set i | 0 <= i < |nodes| :: nodes[i]
  {
    0 <= k <= |neighbors| && (forall j | 0 <= j < k :: Seen(rows, neighbors[j].id)) &&
    forall i | 0 <= i < |nodes| :: nodes[i].platforms == if IsLast(nodes, i) then LinkedOnly(neighbors[..k], rows, nodes[i].id) else []
  }

  /** The distribution went through, or stopped at the first platform that no row mentions. */
  predicate Ending<E(==)>(rows: seq<JoinRow>, neighbors: seq<Platform>, k: nat, error: Option<LoadError<E>>)
    requires k <= |neighbors|
  {
    if error.None? then k == |neighbors|
    else k < |neighbors| && !Seen(rows, neighbors[k].id) && error == Some(UnexpectedPlatform(neighbors[k].id))
  }

  /**
   * `loadPlatforms`: whatever order the inner maps are walked in, each key ends with its related platforms. Of several
   * nodes with one ID, the last gets them; a failing query leaves all edges empty. `intercept` is what interceptors make
   * of the scanned platforms; a platform of their own stops the distribution after the ones before it.
   */
  method LoadPlatforms<E(==)>(nodes: seq<ApiKey>, answer: Result<seq<JoinRow>, E>, intercept: seq<Platform> -> seq<Platform>)
    returns (error: Option<LoadError<E>>, handed: nat)
    requires DistinctNodes(nodes)
    requires answer.Success? ==> RowsOfKeys(nodes, answer.value)
    modifies set i | 0 <= i < |nodes| :: nodes[i]
    ensures answer.Failure? ==> error == Some(QueryFailed(answer.error)) && forall i | 0 <= i < |nodes| :: nodes[i].platforms == []
    ensures answer.Success? ==>
              var neighbors := intercept(FirstPlatforms(answer.value));
              HandedOut(nodes, answer.value, neighbors, handed) && Ending(answer.value, neighbors, handed, error)
    ensures answer.Success? && intercept(FirstPlatforms(answer.value)) == FirstPlatforms(answer.value) ==>
              error.None? && forall i | 0 <= i < |nodes| ::
                nodes[i].platforms == if IsLast(nodes, i) then Related(answer.value, nodes[i].id) else []
  {
    var byID := InitNodes(nodes);
    if answer.Failure? {
      return Some(QueryFailed(answer.error)), 0;
    }
    var nids, scanned := ScanRows(nodes, byID, answer.value);
    FirstPlatformsExact(answer.value);
    RoutesFromIndex(nodes, byID, answer.value, nids);
    var neighbors := intercept(scanned);
    var unexpected;
    unexpected, handed := Distribute(nodes, answer.value, nids, neighbors);
    error := if unexpected.Some? then Some(UnexpectedPlatform(unexpected.value)) else None;
    assert neighbors[..|neighbors|] == neighbors;
  }

  method InitNodes(nodes: seq<ApiKey>) returns (byID: map<int, ApiKey>)
    requires DistinctNodes(nodes)
    modifies set i | 0 <= i < |nodes| :: nodes[i]
    ensures IsIndex(nodes, byID) && forall i | 0 <= i < |nodes| :: nodes[i].platforms == []
  {
    byID := map[];
    for i := 0 to |nodes|
      invariant IsIndex(nodes[..i], byID)
      invariant forall k | 0 <= k < i :: nodes[k].platforms == []
    {
      IndexAppend(nodes[..i], byID, nodes[i]);
      assert nodes[..i + 1] == nodes[..i] + [nodes[i]];
      byID := byID[nodes[i].id := nodes[i]];
      nodes[i].platforms := [];
    }
    assert nodes[..|nodes|] == nodes;
  }

  lemma IndexAppend(nodes: seq<ApiKey>, byID: map<int, ApiKey>, node: ApiKey)
    requires IsIndex(nodes, byID)
    ensures IsIndex(nodes + [node], byID[node.id := node])
  {
    var more, index := nodes + [node], byID[node.id := node];
    assert more[|nodes|] == node && IsLast(more, |nodes|);
    forall k | k in index && k != node.id
      ensures exists i :: 0 <= i < |more| && more[i] == index[k] && IsLast(more, i)
    {
      var i :| 0 <= i < |nodes| && nodes[i] == byID[k] && IsLast(nodes, i);
      assert more[i] == index[k] && IsLast(more, i);
    }
  }

  /** `nids` groups the keys of the rows by platform. */
  ghost predicate Groups(byID: map<int, ApiKey>, rows: seq<JoinRow>, nids: map<int, set<ApiKey>>) {
    (forall r | 0 <= r < |rows| :: rows[r].outValue in byID) &&
    (forall pid :: pid in nids <==> Seen(rows, pid)) &&
    forall pid, key | pid in nids && key in byID :: byID[key] in nids[pid] <==> Linked(rows, key, pid)
  }

  ghost predicate OnlyIndexed(byID: map<int, ApiKey>, nids: map<int, set<ApiKey>>) {
    forall pid, node | pid in nids && node in nids[pid] :: node.id in byID && byID[node.id] == node
  }

  method ScanRows(nodes: seq<ApiKey>, byID: map<int, ApiKey>, rows: seq<JoinRow>)
    returns (nids: map<int, set<ApiKey>>, neighbors: seq<Platform>)
    requires IsIndex(nodes, byID) && RowsOfKeys(nodes, rows)
    ensures neighbors == FirstPlatforms(rows) && Groups(byID, rows, nids) && OnlyIndexed(byID, nids)
  {
    nids, neighbors := map[], [];
    for r := 0 to |rows|
      invariant neighbors == FirstPlatforms(rows[..r])
      invariant Groups(byID, rows[..r], nids) && OnlyIndexed(byID, nids)
    {
      var row := rows[r];
      assert rows[..r + 1] == rows[..r] + [row] && rows[..r + 1][..r] == rows[..r];
      ghost var before := nids;
      if row.platform.id !in nids {
        nids := nids[row.platform.id := {byID[row.outValue]}];
        neighbors := neighbors + [row.platform];
      } else {
        nids := nids[row.platform.id := nids[row.platform.id] + {byID[row.outValue]}];
      }
      assert {} + {byID[row.outValue]} == {byID[row.outValue]};
      GroupsStep(byID, rows[..r], row, before, nids);
    }
    assert rows[..|rows|] == rows;
  }

  lemma GroupsStep(byID: map<int, ApiKey>, rows: seq<JoinRow>, row: JoinRow, before: map<int, set<ApiKey>>, after: map<int, set<ApiKey>>)
    requires Groups(byID, rows, before) && OnlyIndexed(byID, before) && row.outValue in byID
    requires forall k | k in byID :: byID[k].id == k
    requires after == before[row.platform.id :=
                              (if row.platform.id in before then before[row.platform.id] else {}) + {byID[row.outValue]}]
    ensures Groups(byID, rows + [row], after) && OnlyIndexed(byID, after)
    ensures Seen(rows, row.platform.id) <==> row.platform.id in before
  {
    SeenAppend(rows, row);
    forall pid, key | pid in after && key in byID ensures byID[key] in after[pid] <==> Linked(rows + [row], key, pid) {
      LinkedAppend(rows, row, key, pid);
      if pid == row.platform.id && pid !in before {
        assert !Linked(rows, key, pid) by {
          assert !Seen(rows, pid);
        }
      }
    }
  }

  /** What the two index maps amount to: for each platform, the last nodes of the keys linked to it. */
  ghost predicate Routes(nodes: seq<ApiKey>, rows: seq<JoinRow>, nids: map<int, set<ApiKey>>) {
    (forall pid, i | pid in nids && 0 <= i < |nodes| ::
       nodes[i] in nids[pid] <==> IsLast(nodes, i) && Linked(rows, nodes[i].id, pid)) &&
    forall pid, t | pid in nids && t in nids[pid] :: exists i :: 0 <= i < |nodes| && nodes[i] == t
  }

  lemma RoutesFromIndex(nodes: seq<ApiKey>, byID: map<int, ApiKey>, rows: seq<JoinRow>, nids: map<int, set<ApiKey>>)
    requires DistinctNodes(nodes) && IsIndex(nodes, byID) && Groups(byID, rows, nids) && OnlyIndexed(byID, nids)
    ensures Routes(nodes, rows, nids)
  {
    forall pid, i | pid in nids && 0 <= i < |nodes|
      ensures nodes[i] in nids[pid] <==> IsLast(nodes, i) && Linked(rows, nodes[i].id, pid)
    {
      MemberIff(nodes, byID, rows, nids, pid, i);
    }
    forall pid, t | pid in nids && t in nids[pid] ensures exists i :: 0 <= i < |nodes| && nodes[i] == t {
      assert byID[t.id] == t;
    }
  }

  method Distribute(nodes: seq<ApiKey>, rows: seq<JoinRow>, nids: map<int, set<ApiKey>>, neighbors: seq<Platform>)
    returns (unexpected: Option<int>, handed: nat)
    requires DistinctNodes(nodes) && Routes(nodes, rows, nids) && forall pid :: pid in nids <==> Seen(rows, pid)
    requires forall i | 0 <= i < |nodes| :: nodes[i].platforms == []
    modifies set i | 0 <= i < |nodes| :: nodes[i]
    ensures HandedOut(nodes, rows, neighbors, handed)
    ensures if unexpected.None? then handed == |neighbors|
            else handed < |neighbors| && !Seen(rows, neighbors[handed].id) && unexpected.value == neighbors[handed].id
  {
    handed := 0;
    while handed < |neighbors|
      invariant HandedOut(nodes, rows, neighbors, handed)
    {
      var n := neighbors[handed];
      if n.id !in nids {
        return Some(n.id), handed;
      }
      HandNext(nodes, rows, nids, neighbors, handed);
      handed := handed + 1;
    }
    return None, handed;
  }

  method HandNext(nodes: seq<ApiKey>, rows: seq<JoinRow>, nids: map<int, set<ApiKey>>, neighbors: seq<Platform>, k: nat)
    requires DistinctNodes(nodes) && Routes(nodes, rows, nids) && k < |neighbors|
    requires neighbors[k].id in nids && Seen(rows, neighbors[k].id) && HandedOut(nodes, rows, neighbors, k)
    modifies set i | 0 <= i < |nodes| :: nodes[i]
    ensures HandedOut(nodes, rows, neighbors, k + 1)
  {
    var n := neighbors[k];
    forall i | 0 <= i < |nodes|
      ensures LinkedOnly(neighbors[..k + 1], rows, nodes[i].id) ==
              LinkedOnly(neighbors[..k], rows, nodes[i].id) + if Linked(rows, nodes[i].id, n.id) then [n] else []
    {
      assert neighbors[..k + 1][..k] == neighbors[..k];
    }
    AssignAll(nodes, nids[n.id], n);
  }

  lemma MemberIff(nodes: seq<ApiKey>, byID: map<int, ApiKey>, rows: seq<JoinRow>, nids: map<int, set<ApiKey>>, pid: int, i: nat)
    requires DistinctNodes(nodes) && IsIndex(nodes, byID) && Groups(byID, rows, nids) && OnlyIndexed(byID, nids)
    requires pid in nids && i < |nodes|
    ensures nodes[i] in nids[pid] <==> IsLast(nodes, i) && Linked(rows, nodes[i].id, pid)
  {
    var indexed := byID[nodes[i].id];
    var j :| 0 <= j < |nodes| && nodes[j] == indexed && IsLast(nodes, j);
    assert IsLast(nodes, i) <==> i == j;
  }

  /** `for kn := range nodes { assign(kn, n) }`: a map walk in any order. */
  method AssignAll(nodes: seq<ApiKey>, targets: set<ApiKey>, platform: Platform)
    requires DistinctNodes(nodes)
    modifies set i | 0 <= i < |nodes| :: nodes[i]
    requires forall t | t in targets :: exists i :: 0 <= i < |nodes| && nodes[i] == t
    ensures forall i | 0 <= i < |nodes| ::
              nodes[i].platforms == old(nodes[i].platforms) + if nodes[i] in targets then [platform] else []
  {
    var pending := targets;
    while pending != {}
      invariant pending <= targets
      invariant forall i | 0 <= i < |nodes| ::
                  nodes[i].platforms == old(nodes[i].platforms) + if nodes[i] in targets - pending then [platform] else []
      decreases |pending|
    {
      var kn :| kn in pending;
      kn.platforms := kn.platforms + [platform];
      pending := pending - {kn};
    }
  }

  // Against the naive join

  function OwnRows(rows: seq<JoinRow>, key: int): seq<JoinRow> {
    if rows == [] then []
    else
      var last := rows[|rows| - 1];
      OwnRows(rows[..|rows| - 1], key) + if last.outValue == key then [last] else []
  }

  /** One query per key: the key's own rows, each platform once. */
  function NaiveJoin(rows: seq<JoinRow>, key: int): seq<Platform> {
    FirstPlatforms(OwnRows(rows, key))
  }

  /** Rows of one platform carry the same columns: the platform table is joined by its primary key. */
  predicate SameColumns(rows: seq<JoinRow>) {
    forall i, j | 0 <= i < j < |rows| && rows[i].platform.id == rows[j].platform.id :: rows[i].platform == rows[j].platform
  }

  /** Index of the first row that mentions a platform. */
  function FirstRow(rows: seq<JoinRow>, pid: int): (r: nat)
    requires Seen(rows, pid)
    ensures r < |rows| && rows[r].platform.id == pid
  {
    var init := rows[..|rows| - 1];
    if Seen(init, pid) then FirstRow(init, pid) else |init|
  }

  function Rank(rows: seq<JoinRow>): int -> int {
    pid => if Seen(rows, pid) then FirstRow(rows, pid) else -1
  }

  predicate Ascending(platforms: seq<Platform>, rank: int -> int) {
    forall i, j | 0 <= i < j < |platforms| :: rank(platforms[i].id) < rank(platforms[j].id)
  }

  predicate InBatchOrder(platforms: seq<Platform>, rows: seq<JoinRow>) {
    Ascending(platforms, Rank(rows))
  }

  lemma {:induction false} FirstPlatformsInBatchOrder(rows: seq<JoinRow>)
    ensures InBatchOrder(FirstPlatforms(rows), rows)
  {
    if rows != [] {
      var init, last := rows[..|rows| - 1], rows[|rows| - 1];
      assert rows == init + [last];
      FirstPlatformsInBatchOrder(init);
      FirstPlatformsExact(init);
      SeenAppend(init, last);
      var ps := FirstPlatforms(init);
      assert forall i | 0 <= i < |ps| :: Rank(rows)(ps[i].id) == Rank(init)(ps[i].id) < |init|;
    }
  }

  lemma {:induction false} LinkedOnlyMembers(platforms: seq<Platform>, rows: seq<JoinRow>, key: int)
    ensures forall p :: p in LinkedOnly(platforms, rows, key) <==> p in platforms && Linked(rows, key, p.id)
  {
    if platforms != [] {
      var init, last := platforms[..|platforms| - 1], platforms[|platforms| - 1];
      assert platforms == init + [last];
      LinkedOnlyMembers(init, rows, key);
    }
  }

  lemma {:induction false} LinkedOnlyAscending(platforms: seq<Platform>, rows: seq<JoinRow>, key: int, rank: int -> int)
    requires Ascending(platforms, rank)
    ensures Ascending(LinkedOnly(platforms, rows, key), rank)
  {
    if platforms != [] {
      var init, last := platforms[..|platforms| - 1], platforms[|platforms| - 1];
      LinkedOnlyAscending(init, rows, key, rank);
      LinkedOnlyMembers(init, rows, key);
      var kept := LinkedOnly(init, rows, key);
      forall i | 0 <= i < |kept| ensures rank(kept[i].id) < rank(last.id) {
        assert kept[i] in kept;
        var j :| 0 <= j < |init| && init[j] == kept[i];
        assert platforms[j] == kept[i];
      }
    }
  }

  lemma BatchOrderIsDistinct(platforms: seq<Platform>, rows: seq<JoinRow>)
    requires InBatchOrder(platforms, rows)
    ensures DistinctIds(platforms)
  {
    forall i, j | 0 <= i < j < |platforms| ensures platforms[i].id != platforms[j].id {
      assert Rank(rows)(platforms[i].id) < Rank(rows)(platforms[j].id);
    }
  }

  /** A key gets exactly the platforms linked to it, each once, in the order in which the whole batch first mentions them. */
  lemma RelatedExact(rows: seq<JoinRow>, key: int)
    ensures forall pid :: HasId(Related(rows, key), pid) <==> Linked(rows, key, pid)
    ensures DistinctIds(Related(rows, key)) && InBatchOrder(Related(rows, key), rows)
  {
    FirstPlatformsInBatchOrder(rows);
    FirstPlatformsExact(rows);
    LinkedOnlyMembers(FirstPlatforms(rows), rows, key);
    LinkedOnlyAscending(FirstPlatforms(rows), rows, key, Rank(rows));
    BatchOrderIsDistinct(Related(rows, key), rows);
    forall pid ensures HasId(Related(rows, key), pid) <==> Linked(rows, key, pid) {
      if Linked(rows, key, pid) {
        assert Seen(rows, pid) && HasId(FirstPlatforms(rows), pid);
        var k :| 0 <= k < |FirstPlatforms(rows)| && FirstPlatforms(rows)[k].id == pid;
        assert FirstPlatforms(rows)[k] in Related(rows, key);
      }
      if HasId(Related(rows, key), pid) {
        var k :| 0 <= k < |Related(rows, key)| && Related(rows, key)[k].id == pid;
        assert Related(rows, key)[k] in Related(rows, key);
      }
    }
  }

  predicate HasPlatform(rows: seq<JoinRow>, p: Platform) {
    exists i :: 0 <= i < |rows| && rows[i].platform == p
  }

  lemma {:induction false} FirstPlatformsMembers(rows: seq<JoinRow>, p: Platform)
    requires SameColumns(rows)
    ensures p in FirstPlatforms(rows) <==> HasPlatform(rows, p)
  {
    if rows != [] {
      var init, last := rows[..|rows| - 1], rows[|rows| - 1];
      FirstPlatformsMembers(init, p);
      assert rows == init + [last];
      HasPlatformAppend(init, last, p);
      if last.platform == p && Seen(init, p.id) {
        var i :| 0 <= i < |init| && init[i].platform.id == p.id;
        assert rows[i] == init[i] && rows[|init|] == last;
        assert init[i].platform == p;
      }
    }
  }

  lemma HasPlatformAppend(init: seq<JoinRow>, last: JoinRow, p: Platform)
    ensures HasPlatform(init + [last], p) <==> HasPlatform(init, p) || last.platform == p
  {
    var rows := init + [last];
    assert rows[|init|] == last && forall i | 0 <= i < |init| :: rows[i] == init[i];
  }

  lemma {:induction false} OwnRowsAre(rows: seq<JoinRow>, key: int)
    ensures forall r :: r in OwnRows(rows, key) <==> r in rows && r.outValue == key
  {
    if rows != [] {
      assert rows == rows[..|rows| - 1] + [rows[|rows| - 1]];
      OwnRowsAre(rows[..|rows| - 1], key);
    }
  }

  lemma OwnRowsSameColumns(rows: seq<JoinRow>, key: int)
    requires SameColumns(rows)
    ensures SameColumns(OwnRows(rows, key))
  {
    var own := OwnRows(rows, key);
    OwnRowsAre(rows, key);
    forall i, j | 0 <= i < j < |own| && own[i].platform.id == own[j].platform.id ensures own[i].platform == own[j].platform {
      assert own[i] in rows && own[j] in rows;
      var a :| 0 <= a < |rows| && rows[a] == own[i];
      var b :| 0 <= b < |rows| && rows[b] == own[j];
      assert a < b || b < a || a == b;
    }
  }

  /** Eager loading gives each key the same platforms as its own query would, as a multiset. */
  lemma RelatedIsNaiveJoin(rows: seq<JoinRow>, key: int)
    requires SameColumns(rows)
    ensures multiset(Related(rows, key)) == multiset(NaiveJoin(rows, key))
  {
    var own, eager, naive := OwnRows(rows, key), Related(rows, key), NaiveJoin(rows, key);
    OwnRowsAre(rows, key);
    OwnRowsSameColumns(rows, key);
    RelatedExact(rows, key);
    FirstPlatformsExact(own);
    FirstPlatformsInBatchOrder(rows);
    LinkedOnlyMembers(FirstPlatforms(rows), rows, key);
    forall p ensures p in eager <==> p in naive {
      FirstPlatformsMembers(rows, p);
      FirstPlatformsMembers(own, p);
      MemberBothWays(rows, key, p);
    }
    SameDistinctPlatforms(eager, naive);
  }

  lemma MemberBothWays(rows: seq<JoinRow>, key: int, p: Platform)
    requires SameColumns(rows)
    ensures HasPlatform(rows, p) && Linked(rows, key, p.id) <==> HasPlatform(OwnRows(rows, key), p)
  {
    var own := OwnRows(rows, key);
    OwnRowsAre(rows, key);
    if HasPlatform(own, p) {
      var i :| 0 <= i < |own| && own[i].platform == p;
      assert own[i] in rows;
      var a :| 0 <= a < |rows| && rows[a] == own[i];
      assert rows[a].outValue == key && rows[a].platform.id == p.id;
    }
    if HasPlatform(rows, p) && Linked(rows, key, p.id) {
      var a :| 0 <= a < |rows| && rows[a].platform == p;
      var b :| 0 <= b < |rows| && rows[b].outValue == key && rows[b].platform.id == p.id;
      assert a < b || b < a || a == b;
      assert rows[b].platform == p && rows[b] in own;
      var i :| 0 <= i < |own| && own[i] == rows[b];
      assert own[i].platform == p;
    }
  }

  lemma {:induction false} OncePerId(platforms: seq<Platform>, p: Platform)
    requires DistinctIds(platforms)
    ensures multiset(platforms)[p] == if p in platforms then 1 else 0
  {
    if platforms != [] {
      var init, last := platforms[..|platforms| - 1], platforms[|platforms| - 1];
      assert platforms == init + [last];
      assert forall i | 0 <= i < |init| :: init[i] == platforms[i];
      OncePerId(init, p);
    }
  }

  lemma SameDistinctPlatforms(a: seq<Platform>, b: seq<Platform>)
    requires DistinctIds(a) && DistinctIds(b) && forall p :: p in a <==> p in b
    ensures multiset(a) == multiset(b)
  {
    forall p ensures multiset(a)[p] == multiset(b)[p] {
      OncePerId(a, p);
      OncePerId(b, p);
    }
  }

  // When the order agrees as well

  function PlatformIds(rows: seq<JoinRow>): (ids: seq<int>)
    ensures |ids| == |rows| && forall i | 0 <= i < |rows| :: ids[i] == rows[i].platform.id
  {
    seq(|rows|, i requires 0 <= i < |rows| => rows[i].platform.id)
  }

  /** The two ranks put any two of `ids` in the same order. */
  predicate Agree(ids: seq<int>, r1: int -> int, r2: int -> int) {
    forall i, j | 0 <= i < |ids| && 0 <= j < |ids| :: r1(ids[i]) < r1(ids[j]) <==> r2(ids[i]) < r2(ids[j])
  }

  /** Any two platforms of the key are first mentioned in the same order by the key's own rows and by the whole batch. */
  predicate SameOrder(rows: seq<JoinRow>, key: int) {
    Agree(PlatformIds(OwnRows(rows, key)), Rank(OwnRows(rows, key)), Rank(rows))
  }

  lemma WithoutLast(a: seq<Platform>, rank: int -> int, p: Platform)
    requires a != [] && Ascending(a, rank)
    ensures Ascending(a[..|a| - 1], rank)
    ensures p in a[..|a| - 1] <==> p in a && p != a[|a| - 1]
  {
    var init, last := a[..|a| - 1], a[|a| - 1];
    assert a == init + [last];
    assert forall i | 0 <= i < |init| :: init[i] == a[i] && rank(a[i].id) < rank(last.id);
  }

  lemma SameLast(a: seq<Platform>, b: seq<Platform>, rank: int -> int)
    requires a != [] && b != [] && Ascending(a, rank) && Ascending(b, rank) && forall p :: p in a <==> p in b
    ensures a[|a| - 1] == b[|b| - 1]
  {
    var x, y := a[|a| - 1], b[|b| - 1];
    assert x in b && y in a;
    var j :| 0 <= j < |b| && b[j] == x;
    var i :| 0 <= i < |a| && a[i] == y;
  }

  /** Two ascending sequences with the same members are equal. */
  lemma {:induction false} AscendingUnique(a: seq<Platform>, b: seq<Platform>, rank: int -> int)
    requires Ascending(a, rank) && Ascending(b, rank) && forall p :: p in a <==> p in b
    ensures a == b
    decreases |a|
  {
    if a == [] {
      assert forall i | 0 <= i < |b| :: b[i] in a;
    } else {
      assert a[0] in b;
      SameLast(a, b, rank);
      var x, y := a[..|a| - 1], b[..|b| - 1];
      forall p ensures p in x <==> p in y {
        WithoutLast(a, rank, p);
        WithoutLast(b, rank, p);
      }
      WithoutLast(a, rank, a[0]);
      WithoutLast(b, rank, b[0]);
      AscendingUnique(x, y, rank);
      assert a == x + [a[|a| - 1]] && b == y + [b[|b| - 1]];
    }
  }

  lemma SameRankOrder(platforms: seq<Platform>, p: int, q: int, r1: int -> int, r2: int -> int)
    requires Ascending(platforms, r1) && Ascending(platforms, r2) && HasId(platforms, p) && HasId(platforms, q)
    ensures r1(p) < r1(q) <==> r2(p) < r2(q)
  {
    var i :| 0 <= i < |platforms| && platforms[i].id == p;
    var j :| 0 <= j < |platforms| && platforms[j].id == q;
    assert i < j || j < i || i == j;
  }

  /** The same platforms, sorted by two ranks: equal exactly when the ranks agree on them. */
  lemma EqualIffAgree(a: seq<Platform>, b: seq<Platform>, ids: seq<int>, r1: int -> int, r2: int -> int)
    requires Ascending(a, r1) && Ascending(b, r2) && forall p :: p in a <==> p in b
    requires (forall i | 0 <= i < |ids| :: HasId(a, ids[i])) && forall k | 0 <= k < |a| :: a[k].id in ids
    ensures a == b <==> Agree(ids, r1, r2)
  {
    if Agree(ids, r1, r2) {
      forall i, j | 0 <= i < j < |a| ensures r2(a[i].id) < r2(a[j].id) {
        assert a[i].id in ids && a[j].id in ids;
        var k :| 0 <= k < |ids| && ids[k] == a[i].id;
        var l :| 0 <= l < |ids| && ids[l] == a[j].id;
      }
      AscendingUnique(a, b, r2);
    }
    if a == b {
      forall i, j | 0 <= i < |ids| && 0 <= j < |ids| ensures r1(ids[i]) < r1(ids[j]) <==> r2(ids[i]) < r2(ids[j]) {
        SameRankOrder(a, ids[i], ids[j], r1, r2);
      }
    }
  }

  lemma NaiveIds(rows: seq<JoinRow>, key: int)
    ensures var naive, ids := NaiveJoin(rows, key), PlatformIds(OwnRows(rows, key));
            (forall i | 0 <= i < |ids| :: HasId(naive, ids[i])) && forall k | 0 <= k < |naive| :: naive[k].id in ids
  {
    var own, naive, ids := OwnRows(rows, key), NaiveJoin(rows, key), PlatformIds(OwnRows(rows, key));
    FirstPlatformsExact(own);
    forall i | 0 <= i < |ids| ensures HasId(naive, ids[i]) {
      assert Seen(own, own[i].platform.id);
    }
    forall k | 0 <= k < |naive| ensures naive[k].id in ids {
      var i :| 0 <= i < |own| && own[i].platform.id == naive[k].id;
      assert ids[i] == naive[k].id;
    }
  }

  /** Eager loading gives exactly what the per-key query gives if and only if the two mention the platforms in the same order. */
  lemma RelatedEqualsNaiveIff(rows: seq<JoinRow>, key: int)
    requires SameColumns(rows)
    ensures Related(rows, key) == NaiveJoin(rows, key) <==> SameOrder(rows, key)
  {
    RelatedExact(rows, key);
    RelatedIsNaiveJoin(rows, key);
    FirstPlatformsInBatchOrder(OwnRows(rows, key));
    NaiveIds(rows, key);
    var naive, eager := NaiveJoin(rows, key), Related(rows, key);
    forall p ensures p in naive <==> p in eager {
      assert p in naive <==> p in multiset(naive);
      assert p in eager <==> p in multiset(eager);
    }
    EqualIffAgree(naive, eager, PlatformIds(OwnRows(rows, key)), Rank(OwnRows(rows, key)), Rank(rows));
  }

  lemma Appends(rows: seq<JoinRow>, last: JoinRow, key: int)
    ensures FirstPlatforms(rows + [last]) == FirstPlatforms(rows) + if Seen(rows, last.platform.id) then [] else [last.platform]
    ensures OwnRows(rows + [last], key) == OwnRows(rows, key) + if last.outValue == key then [last] else []
  {
    assert (rows + [last])[..|rows|] == rows;
  }

  lemma LinkedOnlyPair(p: Platform, q: Platform, rows: seq<JoinRow>, key: int)
    requires Linked(rows, key, p.id) && Linked(rows, key, q.id)
    ensures LinkedOnly([p, q], rows, key) == [p, q]
  {
    assert [p, q][..1] == [p] && [p][..0] == [];
    assert LinkedOnly([p], rows, key) == [p];
  }

  lemma FirstPlatformsPair(a: JoinRow, b: JoinRow)
    requires a.platform.id != b.platform.id
    ensures FirstPlatforms([a, b]) == [a.platform, b.platform]
  {
    assert [a, b][..1] == [a] && [a][..0] == [];
    assert FirstPlatforms([a]) == [a.platform];
  }

  lemma FirstPlatformsRepeat(a: JoinRow, b: JoinRow, c: JoinRow)
    requires a.platform.id != b.platform.id && c.platform == a.platform
    ensures FirstPlatforms([a, b, c]) == [a.platform, b.platform]
  {
    FirstPlatformsPair(a, b);
    Appends([a, b], c, 0);
    assert [a, b][0] == a && [a, b] + [c] == [a, b, c];
  }

  lemma OwnRowsSkipFirst(a: JoinRow, b: JoinRow, c: JoinRow, key: int)
    requires a.outValue != key && b.outValue == key && c.outValue == key
    ensures OwnRows([a, b, c], key) == [b, c]
  {
    assert OwnRows([], key) == [] && [] + [a] == [a] && [a] + [b] == [a, b] && [a, b] + [c] == [a, b, c];
    Appends([], a, key);
    Appends([a], b, key);
    Appends([a, b], c, key);
  }

  /** As sequences the two can differ: the second key's own rows mention the platforms the other way round. */
  lemma OrderFollowsTheBatch(p: Platform, q: Platform)
    requires p.id != q.id
    ensures var rows := [JoinRow(1, p), JoinRow(2, q), JoinRow(2, p)];
            SameColumns(rows) && Related(rows, 2) == [p, q] && NaiveJoin(rows, 2) == [q, p]
  {
    var a, b, c := JoinRow(1, p), JoinRow(2, q), JoinRow(2, p);
    var rows := [a, b, c];
    FirstPlatformsRepeat(a, b, c);
    OwnRowsSkipFirst(a, b, c, 2);
    FirstPlatformsPair(b, c);
    assert rows[1] == b && rows[2] == c;
    LinkedOnlyPair(p, q, rows, 2);
  }

  // What the distribution functions are

  /** Row `i` is the first to mention its platform. */
  predicate IsFirstMention(rows: seq<JoinRow>, i: int) {
    0 <= i < |rows| && forall j | 0 <= j < i :: rows[j].platform.id != rows[i].platform.id
  }

  lemma FirstMentionAppend(init: seq<JoinRow>, last: JoinRow)
    ensures forall i | 0 <= i < |init| :: IsFirstMention(init + [last], i) <==> IsFirstMention(init, i)
    ensures IsFirstMention(init + [last], |init|) <==> !Seen(init, last.platform.id)
  {
    var more := init + [last];
    assert more[|init|] == last && forall i | 0 <= i < |init| :: more[i] == init[i];
  }

  /** A platform comes with the columns of the first row that mentions it. */
  lemma {:induction false} FirstPlatformsAre(rows: seq<JoinRow>, p: Platform)
    ensures p in FirstPlatforms(rows) <==> exists i :: IsFirstMention(rows, i) && rows[i].platform == p
  {
    if rows != [] {
      var init, last := rows[..|rows| - 1], rows[|rows| - 1];
      assert rows == init + [last];
      FirstPlatformsAre(init, p);
      FirstMentionAppend(init, last);
      assert forall i | 0 <= i < |init| :: rows[i] == init[i];
    }
  }
}
