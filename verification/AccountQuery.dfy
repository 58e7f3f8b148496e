/** Eager loading of accounts: column projection, the nullable many-to-one edge, the one-to-many self edge. */
module AccountQuery {
  import opened Wrappers

  // Columns

  datatype Column = Id | ProxyId | ParentAccountId | PlatformId | Other(name: string)

  /** `AddColumnOnce` */
  function AddOnce(columns: seq<Column>, c: Column): seq<Column> {
    if c in columns then columns else columns + [c]
  }

  lemma AddOnceKeeps(columns: seq<Column>, c: Column)
    ensures columns <= AddOnce(columns, c) && forall x :: x in AddOnce(columns, c) <==> x in columns || x == c
  {
  }

  datatype Edges = Edges(platformPool: bool, proxy: bool, parent: bool)

  /** The projection of a query: no selected fields means all columns. */
  datatype Projection = AllColumns | Only(columns: seq<Column>) {
    predicate Has(c: Column) {
      AllColumns? || c in columns
    }
  }

  function Without(fields: seq<Column>, c: Column): seq<Column> {
    if fields == [] then []
    else Without(fields[..|fields| - 1], c) + if fields[|fields| - 1] != c then [fields[|fields| - 1]] else []
  }

  /** The key columns of the requested edges that were not selected, each once. */
  function Missing(fields: seq<Column>, edges: Edges): seq<Column> {
    (if edges.platformPool && PlatformId !in fields then [PlatformId] else []) +
    (if edges.proxy && ProxyId !in fields then [ProxyId] else []) +
    if edges.parent && ParentAccountId !in fields then [ParentAccountId] else []
  }

  /** `querySpec`: the columns of the statement. */
  method QuerySpec(fields: seq<Column>, edges: Edges) returns (p: Projection)
    ensures fields == [] ==> p == AllColumns
    ensures fields != [] ==> p.Only? && p.columns == [Id] + Without(fields, Id) + Missing(fields, edges)
    ensures fields != [] ==> forall c :: c in p.columns <==>
              c == Id || c in fields || (c == PlatformId && edges.platformPool) || (c == ProxyId && edges.proxy) || (c == ParentAccountId && edges.parent)
    ensures edges.platformPool ==> p.Has(PlatformId)
    ensures edges.proxy ==> p.Has(ProxyId)
    ensures edges.parent ==> p.Has(ParentAccountId)
    ensures forall c | c in fields :: p.Has(c)
  {
    if fields == [] {
      return AllColumns;
    }
    var columns := SelectColumns(fields);
    ghost var selected := columns;
    if edges.platformPool { columns := AddOnce(columns, PlatformId); }
    if edges.proxy { columns := AddOnce(columns, ProxyId); }
    if edges.parent { columns := AddOnce(columns, ParentAccountId); }
    EdgeColumns(fields, edges);
    forall c ensures c in [Id] + Without(fields, Id) <==> c == Id || c in fields { WithoutHas(fields, Id, c); }
    return Only(columns);
  }

  method SelectColumns(fields: seq<Column>) returns (columns: seq<Column>)
    ensures columns == [Id] + Without(fields, Id)
  {
    columns := [Id];
    for i := 0 to |fields|
      invariant columns == [Id] + Without(fields[..i], Id)
    {
      assert fields[..i + 1][..i] == fields[..i];
      if fields[i] != Id {
        columns := columns + [fields[i]];
      }
    }
    assert fields[..|fields|] == fields;
  }

  lemma {:induction false} WithoutHas(fields: seq<Column>, drop: Column, c: Column)
    ensures c in Without(fields, drop) <==> c in fields && c != drop
  {
    if fields != [] {
      var init, last := fields[..|fields| - 1], fields[|fields| - 1];
      assert fields == init + [last];
      WithoutHas(init, drop, c);
    }
  }

  /** Adding the key columns one after the other adds exactly the missing ones. */
  lemma EdgeColumns(fields: seq<Column>, edges: Edges)
    ensures var selected := [Id] + Without(fields, Id);
            var a := if edges.platformPool then AddOnce(selected, PlatformId) else selected;
            var b := if edges.proxy then AddOnce(a, ProxyId) else a;
            (if edges.parent then AddOnce(b, ParentAccountId) else b) == selected + Missing(fields, edges)
  {
    WithoutHas(fields, Id, PlatformId);
    WithoutHas(fields, Id, ProxyId);
    WithoutHas(fields, Id, ParentAccountId);
  }

  // Entities

  datatype Proxy = Proxy(id: int, name: string)

  /** A row of the accounts table. */
  datatype AccountRow = AccountRow(id: int, proxyId: Option<int>, parentId: Option<int>)

  class Account {
    const id: int
    const proxyId: Option<int>
    const parentId: Option<int>
    var proxy: Option<Proxy>
    var children: seq<AccountRow>

    /** `assignValues`: only the projected columns are filled in. */
    constructor Scan(row: AccountRow, p: Projection)
      ensures id == row.id
      ensures proxyId == if p.Has(ProxyId) then row.proxyId else None
      ensures parentId == if p.Has(ParentAccountId) then row.parentId else None
      ensures proxy == None && children == []
    {
      id := row.id;
      proxyId := if p.Has(ProxyId) then row.proxyId else None;
      parentId := if p.Has(ParentAccountId) then row.parentId else None;
      proxy, children := None, [];
    }
  }

  predicate DistinctNodes(nodes: seq<Account>) {
    forall i, j | 0 <= i < j < |nodes| :: nodes[i] != nodes[j]
  }

  // Many-to-one

  function KeysOf(nodes: seq<Account>): seq<Option<int>> {
    seq(|nodes|, i requires 0 <= i < |nodes| => nodes[i].proxyId)
  }

  /** The non-nil keys, each once, by first appearance. */
  function DistinctKeys(keys: seq<Option<int>>): (ids: seq<int>)
    ensures forall k :: k in ids <==> Some(k) in keys
    ensures forall i, j | 0 <= i < j < |ids| :: ids[i] != ids[j]
  {
    if keys == [] then []
    else
      var init, last := keys[..|keys| - 1], keys[|keys| - 1];
      assert keys == init + [last];
      DistinctKeys(init) + if last.None? || last in init then [] else [last.value]
  }

  function LastWithId(neighbors: seq<Proxy>, id: int): Option<Proxy> {
    if neighbors == [] then None
    else if neighbors[|neighbors| - 1].id == id then Some(neighbors[|neighbors| - 1])
    else LastWithId(neighbors[..|neighbors| - 1], id)
  }

  /** The edge after some neighbours were handed out: the last one with the node's key, or what was there before. */
  function Assigned(key: Option<int>, neighbors: seq<Proxy>, before: Option<Proxy>): Option<Proxy> {
    if key.Some? && LastWithId(neighbors, key.value).Some? then LastWithId(neighbors, key.value) else before
  }

  datatype LoadError<E> = QueryFailed(error: E) | UnexpectedKey(id: int) | NilForeignKey(child: int)

  /** The neighbours before position `k` are expected ones, and they have been handed out. */
  predicate HandedOut(nodes: seq<Account>, before: seq<Option<Proxy>>, ids: seq<int>, neighbors: seq<Proxy>, k: int)
    requires |before| == |nodes|
    reads set i | 0 <= i < |nodes| :: nodes[i]
  {
    0 <= k <= |neighbors| && (forall j | 0 <= j < k :: neighbors[j].id in ids) &&
    forall i | 0 <= i < |nodes| :: nodes[i].proxy == Assigned(nodes[i].proxyId, neighbors[..k], before[i])
  }

  function ProxiesOf(nodes: seq<Account>): (r: seq<Option<Proxy>>)
    reads set i | 0 <= i < |nodes| :: nodes[i]
    ensures |r| == |nodes| && forall i | 0 <= i < |nodes| :: r[i] == nodes[i].proxy
  {
    seq(|nodes|, i requires 0 <= i < |nodes| reads set i | 0 <= i < |nodes| :: nodes[i] => nodes[i].proxy)
  }

  /**
   * `loadProxy`: the query is made once, for exactly the distinct non-nil keys, or not at all; `asked` records it. An
   * unexpected neighbour stops the distribution after the ones before it.
   */
  method LoadProxy<E(==)>(nodes: seq<Account>, query: seq<int> -> Result<seq<Proxy>, E>)
    returns (error: Option<LoadError<E>>, asked: Option<seq<int>>, handed: nat)
    requires DistinctNodes(nodes)
    modifies (set i | 0 <= i < |nodes| :: nodes[i])`proxy
    ensures asked == if DistinctKeys(KeysOf(nodes)) == [] then None else Some(DistinctKeys(KeysOf(nodes)))
    ensures asked.None? ==> error.None? && ProxiesOf(nodes) == old(ProxiesOf(nodes))
    ensures asked.Some? && query(asked.value).Failure? ==>
              error == Some(QueryFailed(query(asked.value).error)) && ProxiesOf(nodes) == old(ProxiesOf(nodes))
    ensures asked.Some? && query(asked.value).Success? ==>
              HandedOut(nodes, old(ProxiesOf(nodes)), asked.value, query(asked.value).value, handed) &&
              Ending(asked.value, query(asked.value).value, handed, error)
  {
    var ids, nodeids := GroupByKey(nodes);
    if |ids| == 0 {
      return None, None, 0;
    }
    asked := Some(ids);
    var answer := query(ids);
    if answer.Failure? {
      return Some(QueryFailed(answer.error)), asked, 0;
    }
    error, handed := HandOut(nodes, ids, nodeids, answer.value);
  }

  /** The distribution went through, or stopped at the first neighbour that nobody asked for. */
  predicate Ending<E(==)>(ids: seq<int>, neighbors: seq<Proxy>, handed: nat, error: Option<LoadError<E>>)
    requires handed <= |neighbors|
  {
    if error.None? then handed == |neighbors|
    else handed < |neighbors| && neighbors[handed].id !in ids && error == Some(UnexpectedKey(neighbors[handed].id))
  }

  method HandOut<E(==)>(nodes: seq<Account>, ids: seq<int>, nodeids: map<int, seq<Account>>, neighbors: seq<Proxy>)
    returns (error: Option<LoadError<E>>, handed: nat)
    requires DistinctNodes(nodes) && GroupsKeys(nodes, nodeids) && forall k :: k in ids <==> k in nodeids
    modifies (set i | 0 <= i < |nodes| :: nodes[i])`proxy
    ensures HandedOut(nodes, old(ProxiesOf(nodes)), ids, neighbors, handed) && Ending(ids, neighbors, handed, error)
  {
    ghost var before := ProxiesOf(nodes);
    handed := 0;
    while handed < |neighbors|
      invariant HandedOut(nodes, before, ids, neighbors, handed)
    {
      var n := neighbors[handed];
      if n.id !in nodeids {
        return Some(UnexpectedKey(n.id)), handed;
      }
      AssignKey(nodes, nodeids, n);
      forall i | 0 <= i < |nodes|
        ensures Assigned(nodes[i].proxyId, neighbors[..handed + 1], before[i]) ==
                if nodes[i].proxyId == Some(n.id) then Some(n) else Assigned(nodes[i].proxyId, neighbors[..handed], before[i])
      {
        AssignedStep(nodes[i].proxyId, neighbors, handed, before[i]);
      }
      handed := handed + 1;
    }
    return None, handed;
  }

  method AssignKey(nodes: seq<Account>, nodeids: map<int, seq<Account>>, n: Proxy)
    requires DistinctNodes(nodes) && GroupsKeys(nodes, nodeids) && n.id in nodeids
    modifies (set i | 0 <= i < |nodes| :: nodes[i])`proxy
    ensures forall i | 0 <= i < |nodes| ::
              nodes[i].proxy == if nodes[i].proxyId == Some(n.id) then Some(n) else old(nodes[i].proxy)
  {
    AssignProxy(nodes, nodeids[n.id], n);
  }

  lemma AssignedStep(key: Option<int>, neighbors: seq<Proxy>, k: nat, before: Option<Proxy>)
    requires k < |neighbors|
    ensures Assigned(key, neighbors[..k + 1], before) ==
            if key == Some(neighbors[k].id) then Some(neighbors[k]) else Assigned(key, neighbors[..k], before)
  {
    assert neighbors[..k + 1][..k] == neighbors[..k];
  }

  /** `group` holds exactly the nodes with key `k`. */
  ghost predicate IsGroup(nodes: seq<Account>, k: int, group: seq<Account>) {
    (forall n | n in group :: n in nodes && n.proxyId == Some(k)) &&
    forall n | n in nodes && n.proxyId == Some(k) :: n in group
  }

  /** `nodeids` lists, for each key, exactly its nodes. */
  ghost predicate GroupsKeys(nodes: seq<Account>, nodeids: map<int, seq<Account>>) {
    (forall k :: k in nodeids <==> Some(k) in KeysOf(nodes)) &&
    forall k | k in nodeids :: IsGroup(nodes, k, nodeids[k])
  }

  method GroupByKey(nodes: seq<Account>) returns (ids: seq<int>, nodeids: map<int, seq<Account>>)
    ensures ids == DistinctKeys(KeysOf(nodes)) && GroupsKeys(nodes, nodeids)
    ensures forall k :: k in ids <==> k in nodeids
  {
    ids, nodeids := [], map[];
    for i := 0 to |nodes|
      invariant ids == DistinctKeys(KeysOf(nodes[..i])) && GroupsKeys(nodes[..i], nodeids)
    {
      KeysAppend(nodes, i);
      ids, nodeids := AddNode(nodes[..i], nodes[i], ids, nodeids);
    }
    assert nodes[..|nodes|] == nodes;
  }

  method AddNode(nodes: seq<Account>, node: Account, ids0: seq<int>, nodeids0: map<int, seq<Account>>)
    returns (ids: seq<int>, nodeids: map<int, seq<Account>>)
    requires ids0 == DistinctKeys(KeysOf(nodes)) && GroupsKeys(nodes, nodeids0)
    ensures ids == DistinctKeys(KeysOf(nodes + [node])) && GroupsKeys(nodes + [node], nodeids)
  {
    ids, nodeids := ids0, nodeids0;
    if node.proxyId.Some? {
      var fk := node.proxyId.value;
      if fk !in nodeids {
        ids := ids + [fk];
        nodeids := nodeids[fk := [node]];
      } else {
        nodeids := nodeids[fk := nodeids[fk] + [node]];
      }
    }
    GroupsAppend(nodes, node, nodeids0, nodeids);
    assert KeysOf(nodes + [node]) == KeysOf(nodes) + [node.proxyId];
    DistinctKeysAppend(KeysOf(nodes), node.proxyId);
  }

  lemma DistinctKeysAppend(keys: seq<Option<int>>, last: Option<int>)
    ensures DistinctKeys(keys + [last]) == DistinctKeys(keys) + if last.None? || last in keys then [] else [last.value]
  {
    assert (keys + [last])[..|keys|] == keys;
  }

  /** The map after one more node. */
  ghost predicate Regrouped(node: Account, before: map<int, seq<Account>>, after: map<int, seq<Account>>) {
    match node.proxyId
    case None => after == before
    case Some(fk) => after == before[fk := if fk in before then before[fk] + [node] else [node]]
  }

  lemma GroupsAppend(nodes: seq<Account>, node: Account, before: map<int, seq<Account>>, after: map<int, seq<Account>>)
    requires GroupsKeys(nodes, before) && Regrouped(node, before, after)
    ensures GroupsKeys(nodes + [node], after)
  {
    GroupKeysAppend(nodes, node, before, after);
    forall k | k in after ensures IsGroup(nodes + [node], k, after[k]) {
      GroupAppend(nodes, node, before, after, k);
    }
  }

  lemma GroupKeysAppend(nodes: seq<Account>, node: Account, before: map<int, seq<Account>>, after: map<int, seq<Account>>)
    requires GroupsKeys(nodes, before) && Regrouped(node, before, after)
    ensures forall k :: k in after <==> Some(k) in KeysOf(nodes + [node])
  {
    assert KeysOf(nodes + [node]) == KeysOf(nodes) + [node.proxyId];
  }

  lemma GroupAppend(nodes: seq<Account>, node: Account, before: map<int, seq<Account>>, after: map<int, seq<Account>>, k: int)
    requires GroupsKeys(nodes, before) && Regrouped(node, before, after) && k in after
    ensures IsGroup(nodes + [node], k, after[k])
  {
    forall n | n in nodes && n.proxyId == Some(k) ensures k in before {
      KeyOfNode(nodes, n);
    }
  }

  lemma KeyOfNode(nodes: seq<Account>, n: Account)
    requires n in nodes
    ensures n.proxyId in KeysOf(nodes)
  {
    var i :| 0 <= i < |nodes| && nodes[i] == n;
    assert KeysOf(nodes)[i] == n.proxyId;
  }

  lemma KeysAppend(nodes: seq<Account>, i: nat)
    requires i < |nodes|
    ensures nodes[..i + 1] == nodes[..i] + [nodes[i]]
    ensures KeysOf(nodes[..i + 1]) == KeysOf(nodes[..i]) + [nodes[i].proxyId]
    ensures KeysOf(nodes[..i + 1])[..i] == KeysOf(nodes[..i])
  {
  }

  method AssignProxy(nodes: seq<Account>, targets: seq<Account>, proxy: Proxy)
    requires DistinctNodes(nodes) && forall t | t in targets :: t in nodes
    modifies (set i | 0 <= i < |nodes| :: nodes[i])`proxy
    ensures forall i | 0 <= i < |nodes| ::
              nodes[i].proxy == if nodes[i] in targets then Some(proxy) else old(nodes[i].proxy)
  {
    for t := 0 to |targets|
      invariant forall i | 0 <= i < |nodes| ::
                  nodes[i].proxy == if nodes[i] in targets[..t] then Some(proxy) else old(nodes[i].proxy)
    {
      assert targets[..t + 1] == targets[..t] + [targets[t]];
      assert targets[t] in targets;
      targets[t].proxy := Some(proxy);
    }
    assert targets[..|targets|] == targets;
  }

  /** An answer that holds, in any order and any multiplicity, exactly the rows of `table` with the asked ids. */
  predicate AnswersExactly(table: map<int, Proxy>, ids: seq<int>, neighbors: seq<Proxy>) {
    (forall n | n in neighbors :: n.id in ids && n.id in table && table[n.id] == n) &&
    forall id | id in ids && id in table :: table[id] in neighbors
  }

  lemma {:induction false} LastWithIdExact(neighbors: seq<Proxy>, id: int)
    ensures LastWithId(neighbors, id).Some? ==> LastWithId(neighbors, id).value in neighbors && LastWithId(neighbors, id).value.id == id
    ensures LastWithId(neighbors, id).None? <==> forall n | n in neighbors :: n.id != id
  {
    if neighbors != [] {
      var init, last := neighbors[..|neighbors| - 1], neighbors[|neighbors| - 1];
      assert neighbors == init + [last];
      LastWithIdExact(init, id);
    }
  }

  /** With an exact answer, handing out the batch equals looking every node's key up by itself. */
  lemma {:induction false} BatchEqualsLookup(table: map<int, Proxy>, keys: seq<Option<int>>, neighbors: seq<Proxy>, i: nat)
    requires forall id | id in table :: table[id].id == id
    requires AnswersExactly(table, DistinctKeys(keys), neighbors) && i < |keys|
    ensures Assigned(keys[i], neighbors, None) ==
            if keys[i].Some? && keys[i].value in table then Some(table[keys[i].value]) else None
  {
    if keys[i].Some? {
      var id := keys[i].value;
      assert keys[i] in keys && id in DistinctKeys(keys);
      LastWithIdExact(neighbors, id);
    }
  }

  // One-to-many, on the self edge

  /** `AppendFieldOnce` on a children query that selects fields. */
  function ChildFields(fields: seq<Column>): seq<Column> {
    if fields == [] then [] else AddOnce(fields, ParentAccountId)
  }

  predicate IsLast(nodes: seq<Account>, i: int)
    requires 0 <= i < |nodes|
  {
    forall j | i < j < |nodes| :: nodes[j].id != nodes[i].id
  }

  function ChildrenOf(rows: seq<AccountRow>, key: int): seq<AccountRow> {
    if rows == [] then []
    else ChildrenOf(rows[..|rows| - 1], key) + if rows[|rows| - 1].parentId == Some(key) then [rows[|rows| - 1]] else []
  }

  predicate HasNode(nodes: seq<Account>, id: int) {
    exists i :: 0 <= i < |nodes| && nodes[i].id == id
  }

  /** The rows before position `k` name a loaded parent, and each has been appended to its parent's last node. */
  predicate Adopted(nodes: seq<Account>, rows: seq<AccountRow>, k: int)
    reads set i | 0 <= i < |nodes| :: nodes[i]
  {
    0 <= k <= |rows| && (forall j | 0 <= j < k :: rows[j].parentId.Some? && HasNode(nodes, rows[j].parentId.value)) &&
    forall i | 0 <= i < |nodes| :: nodes[i].children == if IsLast(nodes, i) then ChildrenOf(rows[..k], nodes[i].id) else []
  }

  /** Why row `k` stops the loading. */
  predicate Stops<E(==)>(nodes: seq<Account>, row: AccountRow, error: LoadError<E>) {
    if row.parentId.None? then error == NilForeignKey(row.id)
    else !HasNode(nodes, row.parentId.value) && error == UnexpectedKey(row.parentId.value)
  }

  ghost predicate IndexesLast(nodes: seq<Account>, nodeids: map<int, Account>) {
    (forall k :: k in nodeids <==> HasNode(nodes, k)) &&
    forall k, i | k in nodeids && 0 <= i < |nodes| :: nodes[i] == nodeids[k] <==> nodes[i].id == k && IsLast(nodes, i)
  }

  /** `loadChildren` */
  method LoadChildren<E(==)>(nodes: seq<Account>, answer: Result<seq<AccountRow>, E>)
    returns (error: Option<LoadError<E>>, adopted: nat)
    requires DistinctNodes(nodes)
    modifies (set i | 0 <= i < |nodes| :: nodes[i])`children
    ensures answer.Failure? ==> error == Some(QueryFailed(answer.error)) && forall i | 0 <= i < |nodes| :: nodes[i].children == []
    ensures answer.Success? ==> Adopted(nodes, answer.value, adopted)
    ensures answer.Success? && error.None? ==> adopted == |answer.value|
    ensures answer.Success? && error.Some? ==> adopted < |answer.value| && Stops(nodes, answer.value[adopted], error.value)
  {
    var nodeids := IndexNodes(nodes);
    if answer.Failure? {
      return Some(QueryFailed(answer.error)), 0;
    }
    error, adopted := AdoptAll(nodes, nodeids, answer.value);
  }

  method AdoptAll<E(==)>(nodes: seq<Account>, nodeids: map<int, Account>, rows: seq<AccountRow>)
    returns (error: Option<LoadError<E>>, adopted: nat)
    requires DistinctNodes(nodes) && IndexesLast(nodes, nodeids) && forall i | 0 <= i < |nodes| :: nodes[i].children == []
    modifies (set i | 0 <= i < |nodes| :: nodes[i])`children
    ensures Adopted(nodes, rows, adopted)
    ensures if error.None? then adopted == |rows| else adopted < |rows| && Stops(nodes, rows[adopted], error.value)
  {
    adopted := 0;
    while adopted < |rows|
      invariant Adopted(nodes, rows, adopted)
    {
      var row := rows[adopted];
      if row.parentId.None? {
        return Some(NilForeignKey(row.id)), adopted;
      }
      if row.parentId.value !in nodeids {
        return Some(UnexpectedKey(row.parentId.value)), adopted;
      }
      IndexedIsParent(nodes, nodeids, row);
      AdoptNext(nodes, nodeids[row.parentId.value], rows, adopted);
      adopted := adopted + 1;
    }
    return None, adopted;
  }

  /** `parent` is the last node of the ID that `row` names as its parent. */
  ghost predicate IsParentNode(nodes: seq<Account>, row: AccountRow, parent: Account) {
    row.parentId.Some? && parent in nodes && HasNode(nodes, row.parentId.value) &&
    forall i | 0 <= i < |nodes| :: nodes[i] == parent <==> nodes[i].id == row.parentId.value && IsLast(nodes, i)
  }

  method AdoptNext(nodes: seq<Account>, parent: Account, rows: seq<AccountRow>, k: nat)
    requires DistinctNodes(nodes) && Adopted(nodes, rows, k) && k < |rows| && IsParentNode(nodes, rows[k], parent)
    modifies (set i | 0 <= i < |nodes| :: nodes[i])`children
    ensures Adopted(nodes, rows, k + 1)
  {
    ghost var before := ChildrenLists(nodes);
    parent.children := parent.children + [rows[k]];
    AdoptedStep(nodes, rows, k, before);
  }

  function ChildrenLists(nodes: seq<Account>): (r: seq<seq<AccountRow>>)
    reads set i | 0 <= i < |nodes| :: nodes[i]
    ensures |r| == |nodes| && forall i | 0 <= i < |nodes| :: r[i] == nodes[i].children
  {
    seq(|nodes|, i requires 0 <= i < |nodes| reads set i | 0 <= i < |nodes| :: nodes[i] => nodes[i].children)
  }

  lemma AdoptedStep(nodes: seq<Account>, rows: seq<AccountRow>, k: nat, before: seq<seq<AccountRow>>)
    requires k < |rows| && |before| == |nodes|
    requires forall j | 0 <= j <= k :: rows[j].parentId.Some? && HasNode(nodes, rows[j].parentId.value)
    requires forall i | 0 <= i < |nodes| :: before[i] == if IsLast(nodes, i) then ChildrenOf(rows[..k], nodes[i].id) else []
    requires forall i | 0 <= i < |nodes| ::
               nodes[i].children == before[i] + if rows[k].parentId == Some(nodes[i].id) && IsLast(nodes, i) then [rows[k]] else []
    ensures Adopted(nodes, rows, k + 1)
  {
    assert rows[..k + 1][..k] == rows[..k];
    forall i | 0 <= i < |nodes|
      ensures nodes[i].children == if IsLast(nodes, i) then ChildrenOf(rows[..k + 1], nodes[i].id) else []
    {
      assert before[i] + [] == before[i];
    }
  }

  method IndexNodes(nodes: seq<Account>) returns (nodeids: map<int, Account>)
    requires DistinctNodes(nodes)
    modifies (set i | 0 <= i < |nodes| :: nodes[i])`children
    ensures IndexesLast(nodes, nodeids) && forall i | 0 <= i < |nodes| :: nodes[i].children == []
  {
    nodeids := map[];
    for i := 0 to |nodes|
      invariant IndexesLast(nodes[..i], nodeids) && forall j | 0 <= j < i :: nodes[j].children == []
    {
      assert nodes[..i + 1] == nodes[..i] + [nodes[i]];
      IndexLastAppend(nodes[..i], nodeids, nodes[i]);
      nodeids := nodeids[nodes[i].id := nodes[i]];
      nodes[i].children := [];
    }
    assert nodes[..|nodes|] == nodes;
  }

  lemma IndexLastAppend(nodes: seq<Account>, nodeids: map<int, Account>, node: Account)
    requires IndexesLast(nodes, nodeids) && node !in nodes
    ensures IndexesLast(nodes + [node], nodeids[node.id := node])
  {
    var more, after := nodes + [node], nodeids[node.id := node];
    assert forall i | 0 <= i < |nodes| :: more[i] == nodes[i] && nodes[i] in nodes;
    forall k ensures k in after <==> HasNode(more, k) {
      if HasNode(nodes, k) {
        var i :| 0 <= i < |nodes| && nodes[i].id == k;
        assert more[i].id == k;
      }
      if k == node.id { assert more[|nodes|].id == k; }
    }
    forall k, i | k in after && 0 <= i < |more| ensures more[i] == after[k] <==> more[i].id == k && IsLast(more, i) {
      if i < |nodes| {
        LastOfLonger(nodes, node, i);
      } else if k != node.id {
        ParentIsNode(nodes, nodeids, k);
      }
    }
  }

  lemma LastOfLonger(nodes: seq<Account>, node: Account, i: nat)
    requires i < |nodes|
    ensures IsLast(nodes + [node], i) <==> IsLast(nodes, i) && nodes[i].id != node.id
  {
    var more := nodes + [node];
    assert more[|nodes|] == node && more[i] == nodes[i];
    assert forall j | i < j < |nodes| :: more[j] == nodes[j];
  }

  lemma IndexedIsParent(nodes: seq<Account>, nodeids: map<int, Account>, row: AccountRow)
    requires IndexesLast(nodes, nodeids) && row.parentId.Some? && row.parentId.value in nodeids
    ensures IsParentNode(nodes, row, nodeids[row.parentId.value])
  {
    ParentIsNode(nodes, nodeids, row.parentId.value);
  }

  lemma ParentIsNode(nodes: seq<Account>, nodeids: map<int, Account>, k: int)
    requires IndexesLast(nodes, nodeids) && k in nodeids
    ensures exists i :: 0 <= i < |nodes| && nodes[i] == nodeids[k]
  {
    var i :| 0 <= i < |nodes| && nodes[i].id == k;
    LastOfId(nodes, i);
  }

  lemma {:induction false} LastOfId(nodes: seq<Account>, i: nat)
    requires i < |nodes|
    ensures exists j :: i <= j < |nodes| && nodes[j].id == nodes[i].id && IsLast(nodes, j)
    decreases |nodes| - i
  {
    if !IsLast(nodes, i) {
      var j :| i < j < |nodes| && nodes[j].id == nodes[i].id;
      LastOfId(nodes, j);
    }
  }

  // The whole query

  /** A database whose answers are exact, in an order of its own choosing. */
  datatype Database = Database(proxies: map<int, Proxy>, ask: seq<int> -> Result<seq<Proxy>, ()>, children: seq<AccountRow>) {
    ghost predicate Exact() {
      (forall id | id in proxies :: proxies[id].id == id) &&
      forall ids :: ask(ids).Success? && AnswersExactly(proxies, ids, ask(ids).value)
    }
  }

  /** Every child row names one of the accounts as its parent, as the `IN` clause demands. */
  predicate ChildrenBelong(rows: seq<AccountRow>, children: seq<AccountRow>) {
    forall j | 0 <= j < |children| :: children[j].parentId.Some? && exists i :: 0 <= i < |rows| && rows[i].id == children[j].parentId.value
  }

  function LookUp(proxies: map<int, Proxy>, key: Option<int>): Option<Proxy> {
    if key.Some? && key.value in proxies then Some(proxies[key.value]) else None
  }

  method ScanAll(rows: seq<AccountRow>, projection: Projection) returns (nodes: seq<Account>)
    ensures |nodes| == |rows| && DistinctNodes(nodes)
    ensures forall i | 0 <= i < |rows| ::
              fresh(nodes[i]) && nodes[i].id == rows[i].id && nodes[i].proxy == None && nodes[i].children == [] &&
              nodes[i].proxyId == (if projection.Has(ProxyId) then rows[i].proxyId else None)
  {
    nodes := [];
    for i := 0 to |rows|
      invariant |nodes| == i && DistinctNodes(nodes)
      invariant forall j | 0 <= j < i ::
                  fresh(nodes[j]) && nodes[j].id == rows[j].id && nodes[j].proxy == None && nodes[j].children == [] &&
                  nodes[j].proxyId == (if projection.Has(ProxyId) then rows[j].proxyId else None)
    {
      var node := new Account.Scan(rows[i], projection);
      nodes := nodes + [node];
    }
  }

  /** With an exact database, `loadProxy` gives every node what its own key looks up. */
  method LoadProxyExact(nodes: seq<Account>, db: Database)
    requires DistinctNodes(nodes) && db.Exact() && forall i | 0 <= i < |nodes| :: nodes[i].proxy == None
    modifies (set i | 0 <= i < |nodes| :: nodes[i])`proxy
    ensures forall i | 0 <= i < |nodes| :: nodes[i].proxy == LookUp(db.proxies, nodes[i].proxyId)
  {
    ghost var before := ProxiesOf(nodes);
    var error, asked, handed := LoadProxy(nodes, db.ask);
    if asked.Some? {
      ghost var neighbors := db.ask(asked.value).value;
      assert forall n | n in neighbors :: n.id in asked.value;
      assert handed == |neighbors| && neighbors[..handed] == neighbors;
      ExactProxies(nodes, before, db, neighbors);
    } else {
      NoKeys(nodes);
    }
  }

  lemma NoKeys(nodes: seq<Account>)
    requires DistinctKeys(KeysOf(nodes)) == []
    ensures forall i | 0 <= i < |nodes| :: nodes[i].proxyId.None?
  {
    forall i | 0 <= i < |nodes| ensures nodes[i].proxyId.None? {
      assert KeysOf(nodes)[i] in KeysOf(nodes);
    }
  }

  lemma ExactProxies(nodes: seq<Account>, before: seq<Option<Proxy>>, db: Database, neighbors: seq<Proxy>)
    requires |before| == |nodes| && (forall i | 0 <= i < |nodes| :: before[i] == None)
    requires forall id | id in db.proxies :: db.proxies[id].id == id
    requires AnswersExactly(db.proxies, DistinctKeys(KeysOf(nodes)), neighbors)
    requires forall i | 0 <= i < |nodes| :: nodes[i].proxy == Assigned(nodes[i].proxyId, neighbors, before[i])
    ensures forall i | 0 <= i < |nodes| :: nodes[i].proxy == LookUp(db.proxies, nodes[i].proxyId)
  {
    forall i | 0 <= i < |nodes| ensures nodes[i].proxy == LookUp(db.proxies, nodes[i].proxyId) {
      assert KeysOf(nodes)[i] == nodes[i].proxyId;
      BatchEqualsLookup(db.proxies, KeysOf(nodes), neighbors, i);
    }
  }

  /** With a database that honours the `IN` clause, `loadChildren` gives every node the rows that name it, as selected. */
  method LoadChildrenExact(nodes: seq<Account>, fields: seq<Column>, children: seq<AccountRow>)
    requires DistinctNodes(nodes) && forall i, j | 0 <= i < j < |nodes| :: nodes[i].id != nodes[j].id
    requires forall j | 0 <= j < |children| :: children[j].parentId.Some? && HasNode(nodes, children[j].parentId.value)
    modifies (set i | 0 <= i < |nodes| :: nodes[i])`children
    ensures forall i | 0 <= i < |nodes| :: nodes[i].children == ChildrenOf(Selected(fields, children), nodes[i].id)
  {
    var projection := QuerySpec(ChildFields(fields), Edges(false, false, false));
    var answer := Projected(projection, children);
    assert answer == Selected(fields, children);
    var error, adopted := LoadChildren<()>(nodes, Success(answer));
    assert answer[..|answer|] == answer;
  }

  /** The rows as a statement with these columns returns them. */
  function Projected(p: Projection, rows: seq<AccountRow>): (r: seq<AccountRow>)
    ensures |r| == |rows|
  {
    seq(|rows|, i requires 0 <= i < |rows| =>
      AccountRow(rows[i].id, if p.Has(ProxyId) then rows[i].proxyId else None, if p.Has(ParentAccountId) then rows[i].parentId else None))
  }

  /** What a caller who selected `fields` gets to see: their own choice, and the parent key whether they chose it or not. */
  function Selected(fields: seq<Column>, rows: seq<AccountRow>): (r: seq<AccountRow>)
    ensures |r| == |rows|
  {
    seq(|rows|, i requires 0 <= i < |rows| =>
      AccountRow(rows[i].id, if fields == [] || ProxyId in fields then rows[i].proxyId else None, rows[i].parentId))
  }

  /**
   * `sqlAll` with the proxy edge and the children edge, each if requested; `children` holds the fields that the children
   * query selects. For any selection of fields, every returned account has what its own database row calls for.
   */
  method SqlAll(rows: seq<AccountRow>, fields: seq<Column>, edges: Edges, children: Option<seq<Column>>, db: Database)
    returns (nodes: seq<Account>)
    requires db.Exact() && ChildrenBelong(rows, db.children)
    requires forall i, j | 0 <= i < j < |rows| :: rows[i].id != rows[j].id
    ensures |nodes| == |rows| && forall i | 0 <= i < |rows| ::
              nodes[i].id == rows[i].id &&
              nodes[i].proxy == (if edges.proxy then LookUp(db.proxies, rows[i].proxyId) else None) &&
              nodes[i].children == if children.Some? then ChildrenOf(Selected(children.value, db.children), rows[i].id) else []
  {
    var projection := QuerySpec(fields, edges);
    nodes := ScanAll(rows, projection);
    if |nodes| == 0 {
      return;
    }
    if edges.proxy {
      LoadProxyExact(nodes, db);
    }
    if children.Some? {
      forall j | 0 <= j < |db.children| ensures HasNode(nodes, db.children[j].parentId.value) {
        var i :| 0 <= i < |rows| && rows[i].id == db.children[j].parentId.value;
        assert nodes[i].id == rows[i].id;
      }
      LoadChildrenExact(nodes, children.value, db.children);
    }
  }

  // What the distribution functions are

  /** The neighbour handed out last among those with this ID. */
  lemma {:induction false} LastWithIdIs(neighbors: seq<Proxy>, id: int, n: Proxy)
    ensures LastWithId(neighbors, id) == Some(n) <==>
            exists j :: 0 <= j < |neighbors| && neighbors[j] == n && n.id == id && forall k | j < k < |neighbors| :: neighbors[k].id != id
  {
    if neighbors != [] {
      var init, last := neighbors[..|neighbors| - 1], neighbors[|neighbors| - 1];
      LastWithIdIs(init, id, n);
      assert forall k | 0 <= k < |init| :: init[k] == neighbors[k];
    }
  }

  /** Children are the rows with the key, in the order of the rows. */
  lemma {:induction false} ChildrenOfConcat(a: seq<AccountRow>, b: seq<AccountRow>, key: int)
    ensures ChildrenOf(a + b, key) == ChildrenOf(a, key) + ChildrenOf(b, key)
    decreases |b|
  {
    if b == [] {
      assert a + b == a;
    } else {
      assert (a + b)[..|a + b| - 1] == a + b[..|b| - 1];
      ChildrenOfConcat(a, b[..|b| - 1], key);
    }
  }

  lemma ChildrenOfOne(row: AccountRow, key: int)
    ensures ChildrenOf([row], key) == if row.parentId == Some(key) then [row] else []
  {
    assert [row][..0] == [];
  }

  /** The distinct keys come in the order of their first appearance: more keys only add at the end. */
  lemma {:induction false} DistinctKeysGrow(keys: seq<Option<int>>, more: seq<Option<int>>)
    ensures DistinctKeys(keys) <= DistinctKeys(keys + more)
    decreases |more|
  {
    if more == [] {
      assert keys + more == keys;
    } else {
      var init := more[..|more| - 1];
      assert (keys + more)[..|keys + more| - 1] == keys + init;
      DistinctKeysGrow(keys, init);
    }
  }
}
