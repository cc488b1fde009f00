/** The container of core/include/core/MultiKeyVolatileContainer.hpp: the same nodes held
    twice, in a vector ordered by a changing key and in a map by a fixed one. */
module RankedTable {
  import opened Order
  import opened Ranking

  /** A stored value. The access key is fixed, the sort key is changed in place while shared. */
  class Node<K, S> {
    const id: K
    var key: S

    constructor (id: K, key: S)
      ensures this.id == id && this.key == key
    {
      this.id, this.key := id, key;
    }
  }

  /** The vector and the map hold the same nodes one to one, each under its own access key. */
  ghost predicate OneToOne<K, S>(nodes: seq<Node<K, S>>, index: map<K, Node<K, S>>) {
    && (forall i :: 0 <= i < |nodes| ==> nodes[i].id in index && index[nodes[i].id] == nodes[i])
    && (forall id :: id in index ==> index[id] in nodes && index[id].id == id)
    && (forall i, j :: 0 <= i < j < |nodes| ==> nodes[i].id != nodes[j].id)
  }

  /** A new node under a new access key keeps the two containers in step. */
  lemma {:induction false} EnterOneToOne<K, S>(nodes: seq<Node<K, S>>, index: map<K, Node<K, S>>, node: Node<K, S>,
                                               at: nat)
    requires OneToOne(nodes, index) && at <= |nodes| && node.id !in index
    ensures var after := nodes[..at] + [node] + nodes[at..];
            && OneToOne(after, index[node.id := node])
            && (forall n :: n in after <==> n in nodes || n == node)
  {
    Entered(nodes, node, at);
    EnterDistinct(nodes, node, at);
    EnterIndexed(nodes, index, node, nodes[..at] + [node] + nodes[at..]);
  }

  lemma EnterDistinct<K, S>(nodes: seq<Node<K, S>>, node: Node<K, S>, at: nat)
    requires at <= |nodes| && forall i, j :: 0 <= i < j < |nodes| ==> nodes[i].id != nodes[j].id
    requires forall i :: 0 <= i < |nodes| ==> nodes[i].id != node.id
    ensures var after := nodes[..at] + [node] + nodes[at..];
            forall i, j :: 0 <= i < j < |after| ==> after[i].id != after[j].id
  {
  }

  lemma EnterIndexed<K, S>(nodes: seq<Node<K, S>>, index: map<K, Node<K, S>>, node: Node<K, S>, after: seq<Node<K, S>>)
    requires OneToOne(nodes, index) && node.id !in index
    requires forall n :: n in after <==> n in nodes || n == node
    ensures var index' := index[node.id := node];
            && (forall i :: 0 <= i < |after| ==> after[i].id in index' && index'[after[i].id] == after[i])
            && (forall id :: id in index' ==> index'[id] in after && index'[id].id == id)
  {
    forall i | 0 <= i < |after|
      ensures after[i].id in index[node.id := node] && index[node.id := node][after[i].id] == after[i]
    {
      assert after[i] in after;
    }
  }

  lemma Entered<T>(s: seq<T>, x: T, at: nat)
    requires at <= |s|
    ensures var after := s[..at] + [x] + s[at..];
            && (forall t :: t in after <==> t in s || t == x)
            && (forall i :: 0 <= i < |after| ==> after[i] == if i < at then s[i] else if i == at then x else s[i - 1])
  {
    var after := s[..at] + [x] + s[at..];
    forall t | t in s ensures t in after {
      var i :| 0 <= i < |s| && s[i] == t;
      assert after[if i < at then i else i + 1] == t;
    }
    assert after[at] == x;
  }

  /** The sequence after the element at p was carried to place q by adjacent swaps. */
  function Moved<T>(s: seq<T>, p: nat, q: nat): (t: seq<T>)
    requires p < |s| && q < |s|
    ensures |t| == |s| && t[q] == s[p]
  {
    var base := s[..p] + s[p + 1..];
    base[..q] + [s[p]] + base[q..]
  }

  function Swapped<T>(s: seq<T>, i: nat): seq<T>
    requires i + 1 < |s|
  {
    s[i := s[i + 1]][i + 1 := s[i]]
  }

  lemma MovedNowhere<T>(s: seq<T>, p: nat)
    requires p < |s|
    ensures Moved(s, p, p) == s
  {
  }

  /** The same place reached swap by swap. */
  function Shifted<T>(s: seq<T>, p: nat, q: nat): (t: seq<T>)
    requires p < |s| && q < |s|
    ensures |t| == |s|
    decreases if p < q then q - p else p - q
  {
    if q == p then s
    else if p < q then Swapped(Shifted(s, p, q - 1), q - 1)
    else Swapped(Shifted(s, p, q + 1), q)
  }

  /** Where the element that ends up at i came from. */
  function Source(p: nat, q: nat, i: nat): nat {
    if i == q then p
    else
      var b := if i < q then i else i - 1;
      if b < p then b else b + 1
  }

  lemma MovedFrom<T>(s: seq<T>, p: nat, q: nat)
    requires p < |s| && q < |s|
    ensures forall i :: 0 <= i < |s| ==> Source(p, q, i) < |s| && Moved(s, p, q)[i] == s[Source(p, q, i)]
    ensures forall t :: t in Moved(s, p, q) <==> t in s
  {
    var after := Moved(s, p, q);
    forall t | t in s ensures t in after {
      var k :| 0 <= k < |s| && s[k] == t;
      var b := if k < p then k else k - 1;
      assert after[if k == p then q else if b < q then b else b + 1] == t;
    }
  }

  lemma {:induction false} ShiftedFrom<T>(s: seq<T>, p: nat, q: nat, i: nat)
    requires p < |s| && q < |s| && i < |s|
    ensures Source(p, q, i) < |s| && Shifted(s, p, q)[i] == s[Source(p, q, i)]
    decreases if p < q then q - p else p - q
  {
    if p < q {
      ShiftedFrom(s, p, q - 1, if i == q - 1 then q else if i == q then q - 1 else i);
    } else if q < p {
      ShiftedFrom(s, p, q + 1, if i == q then q + 1 else if i == q + 1 then q else i);
    }
  }

  /** The adjacent swaps take the element out and put it back in at its new place. */
  lemma ShiftedIsMoved<T>(s: seq<T>, p: nat, q: nat)
    requires p < |s| && q < |s|
    ensures Shifted(s, p, q) == Moved(s, p, q)
  {
    MovedFrom(s, p, q);
    forall i | 0 <= i < |s| ensures Shifted(s, p, q)[i] == Moved(s, p, q)[i] {
      ShiftedFrom(s, p, q, i);
    }
  }

  /** What the element meets next, on its way back or forth, stands where it always stood. */
  lemma NextUnmoved<T>(s: seq<T>, p: nat, q: nat)
    requires p <= q && q + 1 < |s|
    ensures Shifted(s, p, q)[q] == s[p] && Shifted(s, p, q)[q + 1] == s[q + 1]
  {
    ShiftedFrom(s, p, q, q);
    ShiftedFrom(s, p, q, q + 1);
  }

  lemma PreviousUnmoved<T>(s: seq<T>, p: nat, q: nat)
    requires 0 < q <= p < |s|
    ensures Shifted(s, p, q)[q] == s[p] && Shifted(s, p, q)[q - 1] == s[q - 1]
  {
    ShiftedFrom(s, p, q, q);
    ShiftedFrom(s, p, q, q - 1);
  }

  lemma MovedOneToOne<K, S>(nodes: seq<Node<K, S>>, index: map<K, Node<K, S>>, p: nat, q: nat)
    requires OneToOne(nodes, index) && p < |nodes| && q < |nodes|
    ensures OneToOne(Moved(nodes, p, q), index)
  {
    MovedFrom(nodes, p, q);
    forall i, j | 0 <= i < j < |nodes| ensures Moved(nodes, p, q)[i].id != Moved(nodes, p, q)[j].id {
      assert Source(p, q, i) != Source(p, q, j);
    }
  }

  datatype Positioned<K, S> = Positioned(position: nat, row: Row<K, S>)

  /** The row number of the row with this id, if there is one. */
  function Standing<K(==), S>(rows: seq<Row<K, S>>, id: K): (p: Option<nat>)
    ensures p.Some? ==> p.value < |rows| && rows[p.value].id == id
    ensures p.None? ==> forall i :: 0 <= i < |rows| ==> rows[i].id != id
  {
    var i := IndexOf(rows, id);
    if i < |rows| then Some(i) else None
  }

  /** Rows lo up to hi, each with its row number. */
  function Slice<K, S>(rows: seq<Row<K, S>>, lo: nat, hi: nat): seq<Positioned<K, S>>
    requires lo <= hi <= |rows|
  {
    seq(hi - lo, i requires 0 <= i < hi - lo => Positioned(lo + i, rows[lo + i]))
  }

  function Min(a: int, b: int): int { if a <= b then a else b }

  function Max(a: int, b: int): int { if a <= b then b else a }

  /** Where the rows below row p stop: the last row is dropped when fewer than n lie below. */
  function LowEnd(size: nat, p: nat, n: nat): (e: nat)
    requires p < size
    ensures p < e <= size
  {
    if size - 1 - p >= n then p + 1 + n else Max(p + 1, size - 1)
  }

  lemma RekeyedBase<K, S>(rows: seq<Row<K, S>>, p: nat, row: Row<K, S>)
    requires p < |rows|
    ensures var after := rows[p := row]; after[..p] + after[p + 1..] == Remove(rows, p)
  {
  }

  /** The new key written where the row stands, before any row moves. */
  function Rekeyed<K, S>(rows: seq<Row<K, S>>, p: nat, amount: S, r: Rules<S>): (t: seq<Row<K, S>>)
    requires p < |rows|
    ensures |t| == |rows|
  {
    rows[p := Row(rows[p].id, r.combine(rows[p].key, amount))]
  }

  /** Where the shift loops stop: between the first row that must stay ahead and one that must not. */
  predicate Stopped<K, S>(rows: seq<Row<K, S>>, p: nat, q: nat, key: S, better: (S, S) -> bool)
    requires p < |rows| && q < |rows|
  {
    if better(key, rows[p].key) then
      && q <= p
      && (0 < q ==> better(rows[q - 1].key, key))
      && (q < p ==> !better(rows[q].key, key))
    else
      && p <= q
      && (p < q ==> better(rows[q].key, key))
      && (q + 1 < |rows| ==> !better(rows[q + 1].key, key))
  }

  lemma UpdateIsUpsert<K, S(!new)>(rows: seq<Row<K, S>>, p: nat, q: nat, amount: S, r: Rules<S>)
    requires StrictWeakOrder(r.better) && Sorted(rows, r.better) && DistinctIds(rows) && p < |rows| && q < |rows|
    requires Stopped(rows, p, q, r.combine(rows[p].key, amount), r.better)
    ensures Moved(Rekeyed(rows, p, amount, r), p, q) == Upsert(rows, rows[p].id, amount, r)
  {
    if r.better(r.combine(rows[p].key, amount), rows[p].key) {
      CarriedLeft(rows, p, q, amount, r);
    } else {
      CarriedRight(rows, p, q, amount, r);
    }
  }

  /** The row that got better stops where the first strictly better row stands before it. */
  lemma CarriedLeft<K, S(!new)>(rows: seq<Row<K, S>>, p: nat, q: nat, amount: S, r: Rules<S>)
    requires StrictWeakOrder(r.better) && Sorted(rows, r.better) && DistinctIds(rows) && q <= p < |rows|
    requires r.better(r.combine(rows[p].key, amount), rows[p].key)
    requires Stopped(rows, p, q, r.combine(rows[p].key, amount), r.better)
    ensures Moved(Rekeyed(rows, p, amount, r), p, q) == Upsert(rows, rows[p].id, amount, r)
  {
    IndexOfAt(rows, p);
    var base, key := Remove(rows, p), r.combine(rows[p].key, amount);
    forall i | 0 <= i < q ensures r.better(base[i].key, key) {
      LeadKept(r.better, rows[q - 1].key, key, rows[i].key);
      LeadKept(r.better, rows[i].key, rows[q - 1].key, key);
    }
    if q == p && q < |base| {
      assert base[q] == rows[p + 1];
      LeadKept(r.better, key, rows[p].key, rows[p + 1].key);
      Asymmetric(r.better, key, rows[p + 1].key);
    }
    CutUnique(base, key, r.better, q);
    RekeyedBase(rows, p, Row(rows[p].id, key));
  }

  /** The row that got no better stops before the first row not strictly better than it. */
  lemma CarriedRight<K, S(!new)>(rows: seq<Row<K, S>>, p: nat, q: nat, amount: S, r: Rules<S>)
    requires StrictWeakOrder(r.better) && Sorted(rows, r.better) && DistinctIds(rows) && p <= q < |rows|
    requires !r.better(r.combine(rows[p].key, amount), rows[p].key)
    requires Stopped(rows, p, q, r.combine(rows[p].key, amount), r.better)
    ensures Moved(Rekeyed(rows, p, amount, r), p, q) == Upsert(rows, rows[p].id, amount, r)
  {
    IndexOfAt(rows, p);
    var base, key := Remove(rows, p), r.combine(rows[p].key, amount);
    if Equivalent(r.better, key, rows[p].key) {
      LeadKept(r.better, rows[q].key, key, rows[p].key);
      MovedNowhere(Rekeyed(rows, p, amount, r), p);
    } else {
      forall i | 0 <= i < q ensures r.better(base[i].key, key) {
        var above := if i < p then rows[p].key else rows[q].key;
        LeadKept(r.better, base[i].key, above, key);
        LeadKept(r.better, above, key, base[i].key);
      }
      CutUnique(base, key, r.better, q);
      RekeyedBase(rows, p, Row(rows[p].id, key));
    }
  }

  lemma PlaceSorted<K, S(!new)>(base: seq<Row<K, S>>, row: Row<K, S>, better: (S, S) -> bool)
    requires StrictWeakOrder(better) && Sorted(base, better)
    ensures Sorted(Place(base, row, better), better)
  {
    var c, rows := Cut(base, row.key, better), Place(base, row, better);
    CutSplits(base, row.key, better);
    forall i, j | 0 <= i < j < |rows| ensures !better(rows[j].key, rows[i].key) {
      assert rows[i] == if i < c then base[i] else if i == c then row else base[i - 1];
      assert rows[j] == if j < c then base[j] else if j == c then row else base[j - 1];
      if i < c && j == c {
        Asymmetric(better, base[i].key, row.key);
      }
    }
  }

  lemma {:induction false} UpsertSorted<K, S(!new)>(rows: seq<Row<K, S>>, id: K, amount: S, r: Rules<S>)
    requires StrictWeakOrder(r.better) && Sorted(rows, r.better)
    ensures Sorted(Upsert(rows, id, amount, r), r.better)
  {
    var p := IndexOf(rows, id);
    if p == |rows| {
      PlaceSorted(rows, Row(id, amount), r.better);
    } else {
      var key := r.combine(rows[p].key, amount);
      if Equivalent(r.better, key, rows[p].key) {
        forall i | 0 <= i < |rows| && i != p
          ensures i < p ==> !r.better(key, rows[i].key)
          ensures p < i ==> !r.better(rows[i].key, key)
        {
          LeadKept(r.better, key, rows[i].key, rows[p].key);
          LeadKept(r.better, rows[i].key, key, rows[p].key);
        }
      } else {
        PlaceSorted(Remove(rows, p), Row(id, key), r.better);
      }
    }
  }

  class Table<K(!new, ==), S(!new)> {
    const rules: Rules<S>
    var sortData: seq<Node<K, S>>
    var accessData: map<K, Node<K, S>>
    ghost var history: seq<Op<K, S>>  // every call made so far, in lock order

    ghost function Rows(): (rows: seq<Row<K, S>>)
      reads this`sortData, sortData
      ensures |rows| == |sortData|
      ensures forall i :: 0 <= i < |rows| ==> rows[i] == Row(sortData[i].id, sortData[i].key)
    {
      var nodes := sortData;
      seq(|nodes|, i requires 0 <= i < |nodes| reads nodes => Row(nodes[i].id, nodes[i].key))
    }

    ghost predicate Ordered()
      reads this`sortData, this`accessData, sortData
    {
      StrictWeakOrder(rules.better) && OneToOne(sortData, accessData) && Sorted(Rows(), rules.better)
    }

    ghost predicate Valid()
      reads this, sortData
    {
      Ordered() && Rows() == Run(history, rules)
    }

    constructor (rules: Rules<S>)
      requires StrictWeakOrder(rules.better)
      ensures Valid() && Rows() == [] && this.rules == rules && history == []
    {
      this.rules := rules;
      sortData, accessData, history := [], map[], [];
    }

    method Clear()
      requires Valid()
      modifies this
      ensures Valid() && Rows() == [] && sortData == [] && accessData == map[]
      ensures history == old(history) + [Op.Clear]
    {
      sortData, accessData := [], map[];
      history := history + [Op.Clear];
    }

    /** The rows strictly better than the key are exactly a prefix. */
    ghost predicate SplitAt(key: S)
      reads this, sortData
    {
      forall i :: 0 <= i < |sortData| ==>
        (rules.better(sortData[i].key, key) <==> i < Cut(Rows(), key, rules.better))
    }

    /** std::lower_bound: halving search for the first row not better than the key. */
    method LowerBound(key: S) returns (first: nat)
      requires SplitAt(key)
      ensures first == Cut(Rows(), key, rules.better)
      ensures first <= |sortData|
    {
      first := 0;
      var count := |sortData|;
      while count > 0
        invariant first + count <= |sortData|
        invariant first <= Cut(Rows(), key, rules.better) <= first + count
      {
        var step := count / 2;
        if rules.better(sortData[first + step].key, key) {
          first, count := first + step + 1, count - step - 1;
        } else {
          count := step;
        }
      }
    }

    /** The forward scan over ties. The index stays inside the vector, so the end-of-vector
        exception of line 236 is unreachable. */
    method ScanTies(start: nat, node: Node<K, S>, ghost p: nat) returns (i: nat)
      requires start <= p < |sortData| && sortData[p] == node
      requires forall j, k :: 0 <= j < k < |sortData| ==> sortData[j].id != sortData[k].id
      ensures i == p
    {
      i := start;
      while sortData[i].id != node.id
        invariant i <= p
        decreases p - i
      {
        i := i + 1;
      }
    }

    /** A node's own row is not better than its key, so the search cannot pass it. */
    lemma {:induction false} NotPassed(p: nat)
      requires Ordered() && p < |sortData|
      ensures var key := sortData[p].key;
              && Cut(Rows(), key, rules.better) <= p
              && SplitAt(key)
    {
      Splits(sortData[p].key);
      assert !rules.better(sortData[p].key, sortData[p].key);
    }

    lemma Splits(key: S)
      requires Ordered()
      ensures forall i :: 0 <= i < |sortData| ==> (rules.better(sortData[i].key, key)
          <==> i < Cut(Rows(), key, rules.better))
    {
      CutSplits(Rows(), key, rules.better);
      assert forall i :: 0 <= i < |sortData| ==> Rows()[i].key == sortData[i].key;
    }

    /** Binary search on the node's current key, then the scan over its ties. */
    method FindNode(node: Node<K, S>) returns (i: nat)
      requires Ordered() && node in sortData
      ensures i < |sortData| && sortData[i] == node
    {
      ghost var p :| 0 <= p < |sortData| && sortData[p] == node;
      NotPassed(p);
      i := LowerBound(node.key);
      i := ScanTies(i, node, p);
    }

    method Find(id: K) returns (found: Option<nat>)
      requires Ordered()
      ensures found == Standing(Rows(), id)
      ensures found.Some? <==> id in accessData
    {
      if id !in accessData {
        assert IndexOf(Rows(), id) == |Rows()|;
        return None;
      }
      var i := FindNode(accessData[id]);
      IndexOfAt(Rows(), i);
      found := Some(i);
    }

    method Insert(id: K, amount: S)
      requires Valid()
      modifies this, sortData
      ensures Valid()
      ensures Rows() == Upsert(old(Rows()), id, amount, rules)
      ensures history == old(history) + [Op.Insert(id, amount)]
      ensures forall n :: n in old(sortData) ==> n in sortData
      ensures forall n :: n in sortData ==> n in old(sortData) || fresh(n)
    {
      RunInsert(history, id, amount, rules);
      InsertRow(id, amount);
      history := history + [Op.Insert(id, amount)];
    }

    method InsertRow(id: K, amount: S)
      requires Ordered()
      modifies this`sortData, this`accessData, sortData
      ensures Ordered()
      ensures Rows() == Upsert(old(Rows()), id, amount, rules)
      ensures forall n :: n in old(sortData) ==> n in sortData
      ensures forall n :: n in sortData ==> n in old(sortData) || fresh(n)
    {
      var found := Find(id);
      UpsertSorted(Rows(), id, amount, rules);
      if found.Some? {
        UpdateRow(found.value, amount);
      } else {
        CreateRow(id, amount);
      }
    }

    /** Whatever calls were made, the vector is the one ranking of their history. */
    lemma AlwaysRanked()
      requires Valid()
      ensures IsRanking(Rows(), history, rules)
    {
      RunIsRanking(history, rules);
    }

    method UpdateRow(at: nat, amount: S)
      requires Ordered() && at < |sortData|
      modifies this`sortData, sortData[at]
      ensures OneToOne(sortData, accessData)
      ensures Rows() == Upsert(old(Rows()), old(sortData[at].id), amount, rules)
      ensures forall n :: n in sortData <==> n in old(sortData)
    {
      ghost var before, nodes := Rows(), sortData;
      ghost var q := Update(at, amount);
      MovedFrom(nodes, at, q);
      MovedOneToOne(nodes, accessData, at, q);
      UpdateIsUpsert(before, at, q, amount, rules);
    }

    method CreateRow(id: K, amount: S)
      requires Ordered() && id !in accessData
      modifies this`sortData, this`accessData
      ensures OneToOne(sortData, accessData)
      ensures Rows() == Place(old(Rows()), Row(id, amount), rules.better)
      ensures forall n :: n in old(sortData) ==> n in sortData
      ensures forall n :: n in sortData ==> n in old(sortData) || fresh(n)
    {
      Splits(amount);
      var at := LowerBound(amount);
      var node := Create(id, amount, at);
      EnterOneToOne(old(sortData), old(accessData), node, at);
    }

    method Create(id: K, amount: S, at: nat) returns (node: Node<K, S>)
      requires at <= |sortData|
      modifies this`sortData, this`accessData
      ensures fresh(node) && node.id == id
      ensures sortData == old(sortData)[..at] + [node] + old(sortData)[at..]
      ensures accessData == old(accessData)[id := node]
      ensures Rows() == old(Rows())[..at] + [Row(id, amount)] + old(Rows())[at..]
    {
      node := new Node(id, amount);
      sortData := sortData[..at] + [node] + sortData[at..];
      accessData := accessData[id := node];
    }

    /** The update branch: the shared node's key is overwritten where it stands, then the node
        is shifted by adjacent swaps until the order holds again. */
    method Update(at: nat, amount: S) returns (ghost q: nat)
      requires at < |sortData|
      requires forall i, j :: 0 <= i < j < |sortData| ==> sortData[i] != sortData[j]
      modifies this`sortData, sortData[at]
      ensures q < |old(sortData)| && sortData == Moved(old(sortData), at, q)
      ensures var before := old(Rows());
              && Rows() == Moved(Rekeyed(before, at, amount, rules), at, q)
              && Stopped(before, at, q, rules.combine(before[at].key, amount), rules.better)
    {
      ghost var before, nodes := Rows(), sortData;
      var node := sortData[at];
      var oldValue := node.key;
      var newValue := rules.combine(oldValue, amount);
      node.key := newValue;
      assert Rows() == Rekeyed(before, at, amount, rules);
      if rules.better(newValue, oldValue) {
        q := ShiftLeft(at);
      } else {
        q := ShiftRight(at);
      }
      RowsMoved(nodes, Rekeyed(before, at, amount, rules), at, q);
    }

    /** Carrying a node along carries its row along. */
    lemma RowsMoved(nodes: seq<Node<K, S>>, rows: seq<Row<K, S>>, at: nat, q: nat)
      requires |rows| == |nodes| && forall i :: 0 <= i < |nodes| ==> rows[i] == Row(nodes[i].id, nodes[i].key)
      requires at < |nodes| && q < |nodes| && sortData == Moved(nodes, at, q)
      ensures Rows() == Moved(rows, at, q)
    {
      MovedFrom(nodes, at, q);
      MovedFrom(rows, at, q);
    }

    method ShiftLeft(at: nat) returns (ghost q: nat)
      requires at < |sortData|
      modifies this`sortData
      ensures q <= at && sortData == Moved(old(sortData), at, q)
      ensures 0 < q ==> rules.better(old(sortData)[q - 1].key, old(sortData)[at].key)
      ensures q < at ==> !rules.better(old(sortData)[q].key, old(sortData)[at].key)
    {
      ghost var nodes := sortData;
      var sortIter: nat, shiftIter: nat := at, at;
      while shiftIter != 0
        invariant shiftIter == sortIter <= at
        invariant sortData == Shifted(nodes, at, sortIter)
        invariant sortIter < at ==> !rules.better(nodes[sortIter].key, nodes[at].key)
        decreases shiftIter
      {
        shiftIter := shiftIter - 1;
        PreviousUnmoved(nodes, at, sortIter);
        if rules.better(sortData[shiftIter].key, sortData[sortIter].key) {
          break;
        }
        SwapAdjacent(shiftIter);
        sortIter := shiftIter;
      }
      ShiftedIsMoved(nodes, at, sortIter);
      q := sortIter;
    }

    method ShiftRight(at: nat) returns (ghost q: nat)
      requires at < |sortData|
      modifies this`sortData
      ensures at <= q < |old(sortData)| && sortData == Moved(old(sortData), at, q)
      ensures at < q ==> rules.better(old(sortData)[q].key, old(sortData)[at].key)
      ensures q + 1 < |sortData| ==> !rules.better(old(sortData)[q + 1].key, old(sortData)[at].key)
    {
      ghost var nodes := sortData;
      var sortIter: nat, shiftIter: nat := at, at;
      while shiftIter != |sortData| - 1
        invariant |sortData| == |nodes| && at <= shiftIter == sortIter < |nodes|
        invariant sortData == Shifted(nodes, at, sortIter)
        invariant at < sortIter ==> rules.better(nodes[sortIter].key, nodes[at].key)
        decreases |sortData| - shiftIter
      {
        shiftIter := shiftIter + 1;
        NextUnmoved(nodes, at, sortIter);
        assert sortData[shiftIter] == nodes[shiftIter] && sortData[sortIter] == nodes[at];
        if rules.better(sortData[shiftIter].key, sortData[sortIter].key) {
          SwapAdjacent(sortIter);
        } else {
          break;
        }
        sortIter := shiftIter;
      }
      ShiftedIsMoved(nodes, at, sortIter);
      q := sortIter;
    }

    /** std::swap of two neighbouring nodes. */
    method SwapAdjacent(i: nat)
      requires i + 1 < |sortData|
      modifies this`sortData
      ensures sortData == Swapped(old(sortData), i)
    {
      sortData := sortData[i := sortData[i + 1]][i + 1 := sortData[i]];
    }

    /** The map alone answers for the vector. */
    predicate IsPresent(id: K): (present: bool)
      requires Ordered()
      reads this`sortData, this`accessData, sortData
      ensures present <==> Standing(Rows(), id).Some?
    {
      assert id in accessData ==> accessData[id] in sortData;
      id in accessData
    }

    /** None stands for the exception thrown when the key is absent. */
    method GetPosition(id: K) returns (r: Option<Positioned<K, S>>)
      requires Ordered()
      ensures r == match Standing(Rows(), id) case None => None case Some(p) => Some(Positioned(p, Rows()[p]))
    {
      var found := Find(id);
      if found.None? {
        return None;
      }
      var node := sortData[found.value];
      r := Some(Positioned(found.value, Row(node.id, node.key)));
    }

    method GetHeadPositions(nPositions: nat) returns (result: seq<Positioned<K, S>>)
      requires Ordered()
      ensures result == Slice(Rows(), 0, Min(nPositions, |Rows()|))
    {
      result := [];
      var i := 0;
      while i < nPositions && i < |sortData|
        invariant i <= nPositions && i <= |sortData|
        invariant result == Slice(Rows(), 0, i)
      {
        result := result + [Positioned(i, Row(sortData[i].id, sortData[i].key))];
        i := i + 1;
      }
    }

    method GetHighPositions(id: K, nPositions: nat) returns (r: Option<seq<Positioned<K, S>>>)
      requires Ordered()
      ensures r == match Standing(Rows(), id) case None => None
          case Some(p) => Some(Slice(Rows(), Max(0, p - nPositions), p))
    {
      var found := Find(id);
      if found.None? {
        return None;
      }
      var result := RowsAbove(found.value, nPositions);
      r := Some(result);
    }

    /** The rest of getHighPositions, once the user's row is found. */
    method RowsAbove(position: nat, nPositions: nat) returns (result: seq<Positioned<K, S>>)
      requires position < |sortData|
      ensures result == Slice(Rows(), Max(0, position - nPositions), position)
    {
      var begin := 0;
      if position >= nPositions {
        begin := position - nPositions;
      }
      result := Collect(begin, position);
    }

    method GetLowPositions(id: K, nPositions: nat) returns (r: Option<seq<Positioned<K, S>>>)
      requires Ordered()
      ensures r == match Standing(Rows(), id)
                   case None => None
                   case Some(p) => Some(Slice(Rows(), p + 1, LowEnd(|Rows()|, p, nPositions)))
    {
      var found := Find(id);
      if found.None? {
        return None;
      }
      var result := RowsBelow(found.value, nPositions);
      r := Some(result);
    }

    /** The rest of getLowPositions, once the user's row is found. */
    method RowsBelow(position: nat, nPositions: nat) returns (result: seq<Positioned<K, S>>)
      requires position < |sortData|
      ensures result == Slice(Rows(), position + 1, LowEnd(|Rows()|, position, nPositions))
    {
      var positionFromEnd := |sortData| - 1 - position;
      var end := |sortData| - 1;
      if positionFromEnd >= nPositions {
        end := position + 1 + nPositions;
      }
      result := Collect(position + 1, end);
    }

    /** The copying loop of both neighbour queries. */
    method Collect(begin: nat, end: nat) returns (result: seq<Positioned<K, S>>)
      requires begin <= |sortData| && (begin <= end <= |sortData| || begin == |sortData|)
      ensures result == Slice(Rows(), begin, Max(begin, Min(end, |Rows()|)))
    {
      result := [];
      var iter := begin;
      while iter != end && iter != |sortData|
        invariant begin <= iter <= |sortData|
        invariant iter <= Max(begin, end)
        invariant result == Slice(Rows(), begin, iter)
        decreases |sortData| - iter
      {
        result := result + [Positioned(iter, Row(sortData[iter].id, sortData[iter].key))];
        iter := iter + 1;
      }
    }
  }

  /** High, the user's own row and low, read in one state, are one run of consecutive rows
      with their true row numbers. */
  lemma {:induction false} Neighbourhood<K, S>(rows: seq<Row<K, S>>, p: nat, n: nat)
    requires p < |rows|
    ensures var lo, hi := Max(0, p - n), LowEnd(|rows|, p, n);
            Slice(rows, lo, p) + [Positioned(p, rows[p])] + Slice(rows, p + 1, hi) == Slice(rows, lo, hi)
  {
  }

  /** Low holds the promised min(n, rows below) rows exactly when n rows lie below or none does;
      otherwise it is those rows without the last. */
  lemma {:induction false} LowMeetsPromise<K, S>(rows: seq<Row<K, S>>, p: nat, n: nat)
    requires p < |rows|
    ensures var below := |rows| - 1 - p;
            var low, promised := Slice(rows, p + 1, LowEnd(|rows|, p, n)), Slice(rows, p + 1, p + 1 + Min(n, below));
            && (low == promised <==> below >= n || below == 0)
            && (low != promised ==> low == promised[..below - 1])
  {
    var below := |rows| - 1 - p;
    var low, promised := Slice(rows, p + 1, LowEnd(|rows|, p, n)), Slice(rows, p + 1, p + 1 + Min(n, below));
    if below < n && below > 0 {
      assert |low| == below - 1 && |promised| == below;
    }
  }

  /** The smallest failing case: of two rows, the one below the first is dropped when two are asked for. */
  lemma LastRowDropped<K, S>(above: Row<K, S>, below: Row<K, S>)
    ensures Slice([above, below], 1, LowEnd(2, 0, 2)) == []
    ensures Slice([above, below], 1, 1 + Min(2, 1)) == [Positioned(1, below)]
  {
  }
}
