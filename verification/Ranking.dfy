/** Optional values and the order laws every sort key must obey. */
module Order {

  datatype Option<+T> = None | Some(value: T)

  /** What std::lower_bound and the shift loops demand of the comparison object. */
  ghost predicate StrictWeakOrder<S(!new)>(better: (S, S) -> bool) {
    && (forall x :: !better(x, x))
    && (forall x, y, z :: better(x, y) && better(y, z) ==> better(x, z))
    && (forall x, y, z :: better(x, y) ==> better(x, z) || better(z, y))
  }

  predicate Equivalent<S>(better: (S, S) -> bool, x: S, y: S) {
    !better(x, y) && !better(y, x)
  }

  lemma Asymmetric<S(!new)>(better: (S, S) -> bool, x: S, y: S)
    requires StrictWeakOrder(better) && better(x, y)
    ensures !better(y, x)
  {
    assert better(y, x) ==> better(x, x);
  }

  /** Going down to something no better keeps a strict lead. */
  lemma LeadKept<S(!new)>(better: (S, S) -> bool, x: S, y: S, z: S)
    requires StrictWeakOrder(better)
    ensures better(x, y) && !better(z, y) ==> better(x, z)
    ensures better(y, z) && !better(y, x) ==> better(x, z)
  {
  }
}

/** The table as a value: what a run of insertions and clears leaves behind. */
module Ranking {
  import opened Order

  datatype Row<K, S> = Row(id: K, key: S)

  datatype Op<K, S> = Insert(id: K, amount: S) | Clear

  /** The two function objects the container is instantiated with. */
  datatype Rules<!S> = Rules(better: (S, S) -> bool, combine: (S, S) -> S)

  ghost predicate Sorted<K, S(!new)>(rows: seq<Row<K, S>>, better: (S, S) -> bool) {
    forall i, j :: 0 <= i < j < |rows| ==> !better(rows[j].key, rows[i].key)
  }

  ghost predicate DistinctIds<K, S>(rows: seq<Row<K, S>>) {
    forall i, j :: 0 <= i < j < |rows| ==> rows[i].id != rows[j].id
  }

  /** The number of leading rows strictly better than the key. */
  function Cut<K, S>(rows: seq<Row<K, S>>, key: S, better: (S, S) -> bool): (c: nat)
    ensures c <= |rows|
    ensures forall i :: 0 <= i < c ==> better(rows[i].key, key)
    ensures c < |rows| ==> !better(rows[c].key, key)
  {
    if rows == [] || !better(rows[0].key, key) then 0 else 1 + Cut(rows[1..], key, better)
  }

  lemma CutUnique<K, S>(rows: seq<Row<K, S>>, key: S, better: (S, S) -> bool, c: nat)
    requires c <= |rows|
    requires forall i :: 0 <= i < c ==> better(rows[i].key, key)
    requires c < |rows| ==> !better(rows[c].key, key)
    ensures Cut(rows, key, better) == c
  {
  }

  lemma {:induction false} CutSplits<K, S(!new)>(rows: seq<Row<K, S>>, key: S, better: (S, S) -> bool)
    requires StrictWeakOrder(better) && Sorted(rows, better)
    ensures forall i :: 0 <= i < |rows| ==> (better(rows[i].key, key) <==> i < Cut(rows, key, better))
  {
    var c := Cut(rows, key, better);
    forall i | c <= i < |rows| ensures !better(rows[i].key, key) {
      if c < i {
        LeadKept(better, rows[i].key, key, rows[c].key);
      }
    }
  }

  /** Insertion after every strictly better row. */
  function Place<K, S>(rows: seq<Row<K, S>>, row: Row<K, S>, better: (S, S) -> bool): seq<Row<K, S>> {
    var c := Cut(rows, row.key, better);
    rows[..c] + [row] + rows[c..]
  }

  /** Where the row with this id stands, or the number of rows when there is none. */
  function IndexOf<K(==), S>(rows: seq<Row<K, S>>, id: K): (i: nat)
    ensures i <= |rows|
    ensures i < |rows| ==> rows[i].id == id
    ensures forall j :: 0 <= j < i ==> rows[j].id != id
  {
    if rows == [] || rows[0].id == id then 0 else 1 + IndexOf(rows[1..], id)
  }

  function Remove<K, S>(rows: seq<Row<K, S>>, i: nat): (r: seq<Row<K, S>>)
    requires i < |rows|
    ensures |r| == |rows| - 1
  {
    rows[..i] + rows[i + 1..]
  }

  /** Remove the row, combine the amounts, re-insert after all strictly better rows;
      a change that leaves the key equivalent moves nothing. */
  function Upsert<K(==), S>(rows: seq<Row<K, S>>, id: K, amount: S, r: Rules<S>): seq<Row<K, S>> {
    var i := IndexOf(rows, id);
    if i == |rows| then Place(rows, Row(id, amount), r.better)
    else
      var key := r.combine(rows[i].key, amount);
      if Equivalent(r.better, key, rows[i].key) then rows[i := Row(id, key)]
      else Place(Remove(rows, i), Row(id, key), r.better)
  }

  function Apply<K(==), S>(rows: seq<Row<K, S>>, op: Op<K, S>, r: Rules<S>): seq<Row<K, S>> {
    match op
    case Insert(id, amount) => Upsert(rows, id, amount, r)
    case Clear => []
  }

  function Run<K(==), S>(ops: seq<Op<K, S>>, r: Rules<S>): seq<Row<K, S>> {
    if ops == [] then [] else Apply(Run(ops[..|ops| - 1], r), ops[|ops| - 1], r)
  }

  lemma RunStep<K, S>(ops: seq<Op<K, S>>, op: Op<K, S>, r: Rules<S>)
    ensures Run(ops + [op], r) == Apply(Run(ops, r), op, r)
  {
    assert (ops + [op])[..|ops + [op]| - 1] == ops;
  }

  lemma RunInsert<K, S>(ops: seq<Op<K, S>>, id: K, amount: S, r: Rules<S>)
    ensures Run(ops + [Insert(id, amount)], r) == Upsert(Run(ops, r), id, amount, r)
  {
    RunStep(ops, Insert(id, amount), r);
  }

  // ---------- The history alone, with no table in it ----------

  /** The in-order fold of everything inserted under this id since the last clear. */
  function KeyOf<K(==), S>(ops: seq<Op<K, S>>, id: K, r: Rules<S>): Option<S> {
    if ops == [] then None
    else
      var past := KeyOf(ops[..|ops| - 1], id, r);
      match ops[|ops| - 1]
      case Clear => None
      case Insert(id', amount) =>
        if id' != id then past
        else if past.None? then Some(amount)
        else Some(r.combine(past.value, amount))
  }

  /** The time of the last insert that created this id's row or really changed its key. */
  function StampOf<K(==), S>(ops: seq<Op<K, S>>, id: K, r: Rules<S>): (t: nat)
    ensures t <= |ops|
  {
    if ops == [] then 0
    else
      var past := ops[..|ops| - 1];
      match ops[|ops| - 1]
      case Clear => 0
      case Insert(id', amount) =>
        var held := KeyOf(past, id, r);
        if id' != id || (held.Some? && Equivalent(r.better, r.combine(held.value, amount), held.value))
        then StampOf(past, id, r)
        else |ops|
  }

  /** Better key first; among equivalent keys the most recently moved first. */
  predicate Ahead<K(==), S>(ops: seq<Op<K, S>>, a: Row<K, S>, b: Row<K, S>, r: Rules<S>) {
    r.better(a.key, b.key) || (!r.better(b.key, a.key) && StampOf(ops, a.id, r) > StampOf(ops, b.id, r))
  }

  ghost predicate HasId<K, S>(rows: seq<Row<K, S>>, id: K) {
    exists i :: 0 <= i < |rows| && rows[i].id == id
  }

  ghost predicate IsRanking<K(!new), S>(rows: seq<Row<K, S>>, ops: seq<Op<K, S>>, r: Rules<S>) {
    && (forall i :: 0 <= i < |rows| ==> KeyOf(ops, rows[i].id, r) == Some(rows[i].key))
    && (forall id :: KeyOf(ops, id, r).Some? ==> HasId(rows, id))
    && DistinctIds(rows)
    && (forall i, j :: 0 <= i < j < |rows| ==> Ahead(ops, rows[i], rows[j], r))
  }

  lemma IndexOfAt<K, S>(rows: seq<Row<K, S>>, i: nat)
    requires DistinctIds(rows) && i < |rows|
    ensures IndexOf(rows, rows[i].id) == i
  {
  }

  lemma RankingSorted<K(!new), S(!new)>(rows: seq<Row<K, S>>, ops: seq<Op<K, S>>, r: Rules<S>)
    requires StrictWeakOrder(r.better) && IsRanking(rows, ops, r)
    ensures Sorted(rows, r.better)
  {
    forall i, j | 0 <= i < j < |rows| ensures !r.better(rows[j].key, rows[i].key) {
      assert Ahead(ops, rows[i], rows[j], r);
      if r.better(rows[i].key, rows[j].key) {
        Asymmetric(r.better, rows[i].key, rows[j].key);
      }
    }
  }

  /** The row placed behind its betters takes its rank when its stamp beats every other. */
  lemma PlaceRanks<K(!new), S(!new)>(base: seq<Row<K, S>>, row: Row<K, S>, ops: seq<Op<K, S>>, r: Rules<S>)
    requires StrictWeakOrder(r.better) && Sorted(base, r.better) && DistinctIds(base)
    requires forall i :: 0 <= i < |base| ==> base[i].id != row.id
    requires forall i :: 0 <= i < |base| ==> StampOf(ops, base[i].id, r) < StampOf(ops, row.id, r)
    requires forall i, j :: 0 <= i < j < |base| ==> Ahead(ops, base[i], base[j], r)
    ensures DistinctIds(Place(base, row, r.better))
    ensures var rows := Place(base, row, r.better);
            forall i, j :: 0 <= i < j < |rows| ==> Ahead(ops, rows[i], rows[j], r)
  {
    var rows := Place(base, row, r.better);
    PlacedAhead(base, row, ops, r);
    forall i, j | 0 <= i < j < |rows|
      ensures rows[i].id != rows[j].id && Ahead(ops, rows[i], rows[j], r)
    {
      PlacedAt(base, row, r.better, i);
      PlacedAt(base, row, r.better, j);
    }
  }

  lemma PlacedAt<K, S>(base: seq<Row<K, S>>, row: Row<K, S>, better: (S, S) -> bool, i: nat)
    requires i <= |base|
    ensures var c := Cut(base, row.key, better);
            Place(base, row, better)[i] == if i < c then base[i] else if i == c then row else base[i - 1]
  {
  }

  /** The rows before the cut stay ahead of the new row, and it goes ahead of the others. */
  lemma PlacedAhead<K(!new), S(!new)>(base: seq<Row<K, S>>, row: Row<K, S>, ops: seq<Op<K, S>>, r: Rules<S>)
    requires StrictWeakOrder(r.better) && Sorted(base, r.better)
    requires forall i :: 0 <= i < |base| ==> StampOf(ops, base[i].id, r) < StampOf(ops, row.id, r)
    ensures forall i :: 0 <= i < |base| ==>
              if i < Cut(base, row.key, r.better) then Ahead(ops, base[i], row, r) else Ahead(ops, row, base[i], r)
  {
    CutSplits(base, row.key, r.better);
  }

  lemma PlaceKeeps<K, S>(base: seq<Row<K, S>>, row: Row<K, S>, better: (S, S) -> bool)
    ensures forall x :: x in Place(base, row, better) <==> x in base || x == row
  {
    var c := Cut(base, row.key, better);
    assert base == base[..c] + base[c..];
  }

  lemma RemoveKeeps<K, S>(rows: seq<Row<K, S>>, p: nat)
    requires p < |rows| && DistinctIds(rows)
    ensures forall x :: x in Remove(rows, p) <==> x in rows && x.id != rows[p].id
    ensures DistinctIds(Remove(rows, p))
  {
    var base := Remove(rows, p);
    forall x | x in rows && x.id != rows[p].id ensures x in base {
      var i :| 0 <= i < |rows| && rows[i] == x;
      assert x == if i < p then base[i] else base[i - 1];
    }
  }

  lemma HasIdIn<K, S>(rows: seq<Row<K, S>>, id: K)
    ensures HasId(rows, id) <==> exists x :: x in rows && x.id == id
    ensures HasId(rows, id) <==> IndexOf(rows, id) < |rows|
  {
    if x :| x in rows && x.id == id {
      var i :| 0 <= i < |rows| && rows[i] == x;
      assert rows[i].id == id;
    }
  }

  /** Two histories give every id but this one the same key and stamp. */
  ghost predicate SameOtherwise<K(!new), S>(past: seq<Op<K, S>>, ops: seq<Op<K, S>>, id: K, r: Rules<S>) {
    forall k :: k != id ==> KeyOf(ops, k, r) == KeyOf(past, k, r) && StampOf(ops, k, r) == StampOf(past, k, r)
  }

  /** What one more insertion does to the history's view of every id. */
  lemma OneMoreInsert<K(!new), S(!new)>(past: seq<Op<K, S>>, id: K, amount: S, r: Rules<S>)
    ensures var ops := past + [Insert(id, amount)];
            && SameOtherwise(past, ops, id, r)
            && KeyOf(ops, id, r) == (match KeyOf(past, id, r) case None => Some(amount)
                case Some(s) => Some(r.combine(s, amount)))
            && (match KeyOf(past, id, r)
                case None => StampOf(ops, id, r) == |ops|
                case Some(s) => StampOf(ops, id, r) == if Equivalent(r.better, r.combine(s, amount), s)
                    then StampOf(past, id, r) else |ops|)
  {
    var ops := past + [Insert(id, amount)];
    assert ops[..|ops| - 1] == past;
  }

  /** One insertion into a ranking of the past gives the ranking of the longer history. */
  lemma UpsertRanks<K(!new), S(!new)>(past: seq<Op<K, S>>, rows: seq<Row<K, S>>, id: K, amount: S, r: Rules<S>)
    requires StrictWeakOrder(r.better) && IsRanking(rows, past, r)
    ensures IsRanking(Upsert(rows, id, amount, r), past + [Insert(id, amount)], r)
  {
    var ops := past + [Insert(id, amount)];
    OneMoreInsert(past, id, amount, r);
    var p := IndexOf(rows, id);
    HasIdIn(rows, id);
    if p == |rows| {
      CreateRanks(past, rows, Row(id, amount), ops, r);
    } else {
      var key := r.combine(rows[p].key, amount);
      assert KeyOf(past, id, r) == Some(rows[p].key);
      if Equivalent(r.better, key, rows[p].key) {
        RekeyRanks(past, rows, p, key, ops, r);
      } else {
        MoveRanks(past, rows, p, key, ops, r);
      }
    }
  }

  lemma {:induction false} CreateRanks<K(!new), S(!new)>(past: seq<Op<K, S>>, rows: seq<Row<K, S>>, row: Row<K, S>,
                                      ops: seq<Op<K, S>>, r: Rules<S>)
    requires StrictWeakOrder(r.better) && IsRanking(rows, past, r) && !HasId(rows, row.id)
    requires |past| < StampOf(ops, row.id, r) && KeyOf(ops, row.id, r) == Some(row.key)
    requires SameOtherwise(past, ops, row.id, r)
    ensures IsRanking(Place(rows, row, r.better), ops, r)
  {
    RankingSorted(rows, past, r);
    forall i, j | 0 <= i < j < |rows| ensures Ahead(ops, rows[i], rows[j], r) {
      assert Ahead(past, rows[i], rows[j], r);
    }
    PlaceRanks(rows, row, ops, r);
    PlaceKeeps(rows, row, r.better);
    RanksOthers(past, rows, rows, Place(rows, row, r.better), row, ops, r);
  }

  lemma {:induction false} MoveRanks<K(!new), S(!new)>(past: seq<Op<K, S>>, rows: seq<Row<K, S>>, p: nat, key: S,
                                    ops: seq<Op<K, S>>, r: Rules<S>)
    requires StrictWeakOrder(r.better) && IsRanking(rows, past, r) && p < |rows|
    requires |past| < StampOf(ops, rows[p].id, r) && KeyOf(ops, rows[p].id, r) == Some(key)
    requires SameOtherwise(past, ops, rows[p].id, r)
    ensures IsRanking(Place(Remove(rows, p), Row(rows[p].id, key), r.better), ops, r)
  {
    var base, row := Remove(rows, p), Row(rows[p].id, key);
    RankingSorted(rows, past, r);
    RemoveSorted(rows, p, r.better);
    RemoveKeeps(rows, p);
    RemainingRanks(past, rows, p, ops, r);
    forall i | 0 <= i < |base| ensures base[i].id != row.id {
      assert base[i] in base;
    }
    PlaceRanks(base, row, ops, r);
    PlaceKeeps(base, row, r.better);
    RanksOthers(past, rows, base, Place(base, row, r.better), row, ops, r);
  }

  lemma RemoveSorted<K, S(!new)>(rows: seq<Row<K, S>>, p: nat, better: (S, S) -> bool)
    requires Sorted(rows, better) && p < |rows|
    ensures Sorted(Remove(rows, p), better)
  {
  }

  /** The rows left behind keep their order among themselves. */
  lemma RemainingRanks<K(!new), S(!new)>(past: seq<Op<K, S>>, rows: seq<Row<K, S>>, p: nat, ops: seq<Op<K, S>>,
        r: Rules<S>)
    requires DistinctIds(rows) && p < |rows|
    requires forall i, j :: 0 <= i < j < |rows| ==> Ahead(past, rows[i], rows[j], r)
    requires forall k :: k != rows[p].id ==> StampOf(ops, k, r) == StampOf(past, k, r)
    ensures var base := Remove(rows, p); forall i, j :: 0 <= i < j < |base| ==> Ahead(ops, base[i], base[j], r)
  {
    var base := Remove(rows, p);
    forall i, j | 0 <= i < j < |base| ensures Ahead(ops, base[i], base[j], r) {
      assert base[i] == rows[if i < p then i else i + 1] && base[j] == rows[if j < p then j else j + 1];
      assert Ahead(past, base[i], base[j], r);
    }
  }

  /** The keys and ids of a list that differs from a ranking only in one row. */
  lemma RanksOthers<K(!new), S(!new)>(past: seq<Op<K, S>>, rows: seq<Row<K, S>>, base: seq<Row<K, S>>,
                                      after: seq<Row<K, S>>, row: Row<K, S>, ops: seq<Op<K, S>>, r: Rules<S>)
    requires IsRanking(rows, past, r)
    requires forall x :: x in base <==> x in rows && x.id != row.id
    requires forall x :: x in after <==> x in base || x == row
    requires KeyOf(ops, row.id, r) == Some(row.key)
    requires forall k :: k != row.id ==> KeyOf(ops, k, r) == KeyOf(past, k, r)
    ensures forall i :: 0 <= i < |after| ==> KeyOf(ops, after[i].id, r) == Some(after[i].key)
    ensures forall k :: KeyOf(ops, k, r).Some? ==> HasId(after, k)
  {
    forall i | 0 <= i < |after| ensures KeyOf(ops, after[i].id, r) == Some(after[i].key) {
      assert after[i] in after;
    }
    forall k | KeyOf(ops, k, r).Some? ensures HasId(after, k) {
      HasIdIn(after, k);
      if k == row.id {
        assert row in after;
      } else {
        assert HasId(rows, k);
        var i :| 0 <= i < |rows| && rows[i].id == k;
        assert rows[i] in base;
        assert rows[i] in after;
      }
    }
  }

  /** A key replaced by an equivalent one keeps every row's rank. */
  lemma RekeyRanks<K(!new), S(!new)>(past: seq<Op<K, S>>, rows: seq<Row<K, S>>, p: nat, key: S,
                                     ops: seq<Op<K, S>>, r: Rules<S>)
    requires StrictWeakOrder(r.better) && IsRanking(rows, past, r) && p < |rows|
    requires Equivalent(r.better, key, rows[p].key)
    requires forall k :: StampOf(ops, k, r) == StampOf(past, k, r)
    requires KeyOf(ops, rows[p].id, r) == Some(key)
    requires forall k :: k != rows[p].id ==> KeyOf(ops, k, r) == KeyOf(past, k, r)
    ensures IsRanking(rows[p := Row(rows[p].id, key)], ops, r)
  {
    var after := rows[p := Row(rows[p].id, key)];
    forall i, j | 0 <= i < j < |after| ensures Ahead(ops, after[i], after[j], r) {
      assert Ahead(past, rows[i], rows[j], r);
      LeadKept(r.better, after[i].key, rows[p].key, key);
      LeadKept(r.better, rows[p].key, after[j].key, key);
      LeadKept(r.better, key, rows[p].key, after[j].key);
      LeadKept(r.better, after[j].key, rows[p].key, key);
      LeadKept(r.better, after[j].key, key, rows[p].key);
    }
    forall k | KeyOf(ops, k, r).Some? ensures HasId(after, k) {
      if k == rows[p].id {
        assert after[p].id == k;
      } else {
        assert HasId(rows, k);
        var i :| 0 <= i < |rows| && rows[i].id == k;
        assert after[i].id == k;
      }
    }
  }

  /** After any run of insertions and clears the table is the ranking of its history. */
  lemma {:induction false} RunIsRanking<K(!new), S(!new)>(ops: seq<Op<K, S>>, r: Rules<S>)
    requires StrictWeakOrder(r.better)
    ensures IsRanking(Run(ops, r), ops, r)
  {
    if ops != [] {
      var past, op := ops[..|ops| - 1], ops[|ops| - 1];
      RunIsRanking(past, r);
      assert ops == past + [op];
      match op
      case Insert(id, amount) => UpsertRanks(past, Run(past, r), id, amount, r);
      case Clear =>
    }
  }

  /** And the history has only one ranking. */
  lemma {:induction false} RankingUnique<K(!new), S(!new)>(x: seq<Row<K, S>>, y: seq<Row<K, S>>,
                                                          ops: seq<Op<K, S>>, r: Rules<S>)
    requires StrictWeakOrder(r.better) && IsRanking(x, ops, r) && IsRanking(y, ops, r)
    ensures x == y
  {
    RankingRowsSame(x, y, ops, r);
    SameOrder(x, y, ops, r);
  }

  lemma RankingRowsSame<K(!new), S>(x: seq<Row<K, S>>, y: seq<Row<K, S>>, ops: seq<Op<K, S>>, r: Rules<S>)
    requires IsRanking(x, ops, r) && IsRanking(y, ops, r)
    ensures forall row :: row in x <==> row in y
  {
    forall row | row in x ensures row in y {
      var i :| 0 <= i < |x| && x[i] == row;
      assert HasId(y, row.id);
      var j :| 0 <= j < |y| && y[j].id == row.id;
      assert KeyOf(ops, x[i].id, r) == Some(x[i].key) && KeyOf(ops, y[j].id, r) == Some(y[j].key);
    }
    forall row | row in y ensures row in x {
      var i :| 0 <= i < |y| && y[i] == row;
      assert HasId(x, row.id);
      var j :| 0 <= j < |x| && x[j].id == row.id;
      assert KeyOf(ops, y[i].id, r) == Some(y[i].key) && KeyOf(ops, x[j].id, r) == Some(x[j].key);
    }
  }

  lemma FirstIn<T>(s: seq<T>)
    ensures s == [] || exists t :: t in s
  {
    assert s == [] || s[0] in s;
  }

  lemma HeadsAgree<K(!new), S(!new)>(x: seq<Row<K, S>>, y: seq<Row<K, S>>, ops: seq<Op<K, S>>, r: Rules<S>)
    requires StrictWeakOrder(r.better) && x != [] && y != [] && x[0] in y && y[0] in x
    requires forall i, j :: 0 <= i < j < |x| ==> Ahead(ops, x[i], x[j], r)
    requires forall i, j :: 0 <= i < j < |y| ==> Ahead(ops, y[i], y[j], r)
    ensures x[0] == y[0]
  {
    var i :| 0 <= i < |y| && y[i] == x[0];
    var j :| 0 <= j < |x| && x[j] == y[0];
    assert i > 0 ==> Ahead(ops, y[0], y[i], r);
    assert j > 0 ==> Ahead(ops, x[0], x[j], r);
    assert r.better(x[0].key, y[0].key) && r.better(y[0].key, x[0].key) ==> r.better(x[0].key, x[0].key);
  }

  /** Two lists of the same rows, both in rank order, are the same list. */
  lemma {:induction false} SameOrder<K(!new), S(!new)>(x: seq<Row<K, S>>, y: seq<Row<K, S>>,
                                                      ops: seq<Op<K, S>>, r: Rules<S>)
    requires StrictWeakOrder(r.better) && DistinctIds(x) && DistinctIds(y)
    requires forall row :: row in x <==> row in y
    requires forall i, j :: 0 <= i < j < |x| ==> Ahead(ops, x[i], x[j], r)
    requires forall i, j :: 0 <= i < j < |y| ==> Ahead(ops, y[i], y[j], r)
    ensures x == y
    decreases |x|
  {
    if x == [] {
      FirstIn(y);
    } else {
      assert x[0] in y;
      HeadsAgree(x, y, ops, r);
      forall row ensures row in x[1..] <==> row in y[1..] {
        if row in x[1..] {
          assert row in x && row != x[0];
        }
        if row in y[1..] {
          assert row in y && row != y[0];
        }
      }
      SameOrder(x[1..], y[1..], ops, r);
      assert x == [x[0]] + x[1..] && y == [y[0]] + y[1..];
    }
  }
}
