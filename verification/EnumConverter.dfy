/** Names of enum values, looked up without regard to letter case: core/include/core/EnumConverter.hpp. */
module EnumNames {
  import opened Order

  function Upper(c: char): char {
    if 'a' <= c <= 'z' then 'A' + (c - 'a') else c
  }

  function Fold(s: string): (t: string)
    ensures |t| == |s|
  {
    seq(|s|, i requires 0 <= i < |s| => Upper(s[i]))
  }

  /** Capital and small form of one of the 26 letters, by character code. */
  predicate CasePair(capital: char, small: char) {
    65 <= capital as int <= 90 && small as int == capital as int + 32
  }

  predicate SameLetter(c: char, d: char) { c == d || CasePair(c, d) || CasePair(d, c) }

  /** The same name up to letter case: letter for letter. */
  predicate SameSpelling(a: string, b: string) {
    |a| == |b| && forall i :: 0 <= i < |a| ==> SameLetter(a[i], b[i])
  }

  lemma UpperIs(c: char, d: char)
    ensures Upper(c) == Upper(d) <==> SameLetter(c, d)
  {
  }

  lemma FoldIs(a: string, b: string)
    ensures Fold(a) == Fold(b) <==> SameSpelling(a, b)
  {
    if |a| == |b| {
      forall i | 0 <= i < |a| ensures Fold(a)[i] == Fold(b)[i] <==> SameLetter(a[i], b[i]) {
        UpperIs(a[i], b[i]);
      }
    } else {
      assert |Fold(a)| != |Fold(b)|;
    }
  }

  /** The map's comparison: lexicographic, each character compared in upper case. */
  predicate Less(a: string, b: string) {
    if b == [] then false
    else if a == [] then true
    else if Upper(a[0]) < Upper(b[0]) then true
    else if Upper(b[0]) < Upper(a[0]) then false
    else Less(a[1..], b[1..])
  }

  /** Two names are one key of the map exactly when they agree up to letter case. */
  lemma {:induction false} OneKey(a: string, b: string)
    ensures !Less(a, b) && !Less(b, a) <==> SameSpelling(a, b)
  {
    if a != [] && b != [] {
      OneKey(a[1..], b[1..]);
      UpperIs(a[0], b[0]);
      SpellingTail(a, b);
    }
  }

  lemma SpellingTail(a: string, b: string)
    requires a != [] && b != []
    ensures SameSpelling(a, b) <==> SameLetter(a[0], b[0]) && SameSpelling(a[1..], b[1..])
  {
    if SameLetter(a[0], b[0]) && SameSpelling(a[1..], b[1..]) {
      forall i | 0 <= i < |a| ensures SameLetter(a[i], b[i]) {
        if i > 0 {
          assert SameLetter(a[1..][i - 1], b[1..][i - 1]);
        }
      }
    }
  }

  /** The comparison orders names: the map needs no more of it. */
  lemma LessOrders()
    ensures StrictWeakOrder(Less)
  {
    forall x ensures !Less(x, x) {
      OneKey(x, x);
    }
    forall x, y, z ensures Less(x, y) && Less(y, z) ==> Less(x, z) {
      LessTransitive(x, y, z);
    }
    forall x, y, z ensures Less(x, y) ==> Less(x, z) || Less(z, y) {
      LessSplits(x, y, z);
    }
  }

  lemma {:induction false} LessTransitive(x: string, y: string, z: string)
    ensures Less(x, y) && Less(y, z) ==> Less(x, z)
  {
    if x != [] && y != [] && z != [] {
      LessTransitive(x[1..], y[1..], z[1..]);
    }
  }

  lemma {:induction false} LessSplits(x: string, y: string, z: string)
    ensures Less(x, y) ==> Less(x, z) || Less(z, y)
  {
    if x != [] && y != [] && z != [] {
      LessSplits(x[1..], y[1..], z[1..]);
    }
  }

  /** The two maps; the second is keyed by folded names, which OneKey justifies. */
  datatype Names<T> = Names(enumToString: map<T, string>, stringToEnum: map<string, T>) {

    /** map::insert keeps an existing entry. */
    function Added(key: T, value: string): Names<T> {
      Names(if key in enumToString then enumToString else enumToString[key := value],
            if Fold(value) in stringToEnum then stringToEnum else stringToEnum[Fold(value) := key])
    }

    function ToString(key: T): Option<string> {
      if key in enumToString then Some(enumToString[key]) else None
    }

    function ToEnum(name: string): Option<T> {
      if Fold(name) in stringToEnum then Some(stringToEnum[Fold(name)]) else None
    }
  }

  function Build<T(==)>(pairs: seq<(T, string)>): Names<T> {
    if pairs == [] then Names(map[], map[])
    else Build(pairs[..|pairs| - 1]).Added(pairs[|pairs| - 1].0, pairs[|pairs| - 1].1)
  }

  predicate DistinctKeys<T(==)>(pairs: seq<(T, string)>) {
    forall i, j :: 0 <= i < j < |pairs| ==> pairs[i].0 != pairs[j].0
  }

  predicate DistinctNames<T>(pairs: seq<(T, string)>) {
    forall i, j :: 0 <= i < j < |pairs| ==> !SameSpelling(pairs[i].1, pairs[j].1)
  }

  /** A value keeps the first name that was added for it. */
  lemma {:induction false} BuildName<T>(pairs: seq<(T, string)>, key: T)
    ensures Build(pairs).ToString(key).Some? <==> exists i :: 0 <= i < |pairs| && pairs[i].0 == key
    ensures forall i :: 0 <= i < |pairs| && pairs[i].0 == key && (forall j :: 0 <= j < i ==> pairs[j].0 != key)
              ==> Build(pairs).ToString(key) == Some(pairs[i].1)
  {
    if pairs != [] {
      var past, n := pairs[..|pairs| - 1], |pairs| - 1;
      BuildName(past, key);
      assert forall i :: 0 <= i < n ==> past[i] == pairs[i];
      if pairs[n].0 == key {
        assert exists i :: 0 <= i < |pairs| && pairs[i].0 == key;
      }
    }
  }

  /** Every value added once keeps its own name. */
  lemma {:induction false} BuildToString<T>(pairs: seq<(T, string)>, i: nat)
    requires DistinctKeys(pairs) && i < |pairs|
    ensures Build(pairs).ToString(pairs[i].0) == Some(pairs[i].1)
  {
    BuildName(pairs, pairs[i].0);
  }

  /** A name finds the first value that was added under it, in any letter case. */
  lemma {:induction false} BuildToEnum<T>(pairs: seq<(T, string)>, name: string)
    ensures Build(pairs).ToEnum(name).Some? <==> exists i :: 0 <= i < |pairs| && SameSpelling(pairs[i].1, name)
    ensures forall i :: 0 <= i < |pairs| && SameSpelling(pairs[i].1, name)
              && (forall j :: 0 <= j < i ==> !SameSpelling(pairs[j].1, name))
              ==> Build(pairs).ToEnum(name) == Some(pairs[i].0)
  {
    if pairs != [] {
      var past, n := pairs[..|pairs| - 1], |pairs| - 1;
      BuildToEnum(past, name);
      FoldIs(pairs[n].1, name);
      assert forall i :: 0 <= i < n ==> past[i] == pairs[i];
      if SameSpelling(pairs[n].1, name) {
        assert exists i :: 0 <= i < |pairs| && SameSpelling(pairs[i].1, name);
      }
    }
  }

  lemma SpellingRelates(a: string, b: string, c: string)
    ensures SameSpelling(a, a)
    ensures SameSpelling(a, b) ==> SameSpelling(b, a)
    ensures SameSpelling(a, b) && SameSpelling(b, c) ==> SameSpelling(a, c)
  {
    FoldIs(a, b);
    FoldIs(b, a);
    FoldIs(b, c);
    FoldIs(a, c);
  }

  /** With distinct values, names lead back to their values exactly when no two names agree up to
      letter case. */
  lemma {:induction false} RoundTripIff<T>(pairs: seq<(T, string)>)
    requires DistinctKeys(pairs)
    ensures (forall i :: 0 <= i < |pairs| ==> Build(pairs).ToEnum(pairs[i].1) == Some(pairs[i].0))
        <==> DistinctNames(pairs)
  {
    if DistinctNames(pairs) {
      forall i | 0 <= i < |pairs| ensures Build(pairs).ToEnum(pairs[i].1) == Some(pairs[i].0) {
        BuildToEnum(pairs, pairs[i].1);
        SpellingRelates(pairs[i].1, pairs[i].1, pairs[i].1);
      }
    }
    forall i, j | 0 <= i < j < |pairs| && SameSpelling(pairs[i].1, pairs[j].1)
      ensures Build(pairs).ToEnum(pairs[i].1) == Build(pairs).ToEnum(pairs[j].1)
    {
      FoldIs(pairs[i].1, pairs[j].1);
    }
  }

  /** Then any spelling of a name in other letter case is accepted too. */
  lemma {:induction false} AnyCase<T>(pairs: seq<(T, string)>, i: nat, name: string)
    requires DistinctKeys(pairs) && DistinctNames(pairs) && i < |pairs| && SameSpelling(name, pairs[i].1)
    ensures Build(pairs).ToString(pairs[i].0) == Some(pairs[i].1)
    ensures Build(pairs).ToEnum(name) == Some(pairs[i].0)
  {
    BuildToString(pairs, i);
    BuildToEnum(pairs, name);
    OnlySpelling(pairs, i, name);
  }

  lemma OnlySpelling<T>(pairs: seq<(T, string)>, i: nat, name: string)
    requires DistinctNames(pairs) && i < |pairs| && SameSpelling(name, pairs[i].1)
    ensures SameSpelling(pairs[i].1, name)
    ensures forall j :: 0 <= j < |pairs| && j != i ==> !SameSpelling(pairs[j].1, name)
  {
    SpellingRelates(name, pairs[i].1, name);
    forall j | 0 <= j < |pairs| && j != i && SameSpelling(pairs[j].1, name) ensures false {
      SpellingRelates(pairs[j].1, name, pairs[i].1);
      SpellingRelates(pairs[j].1, pairs[i].1, name);
    }
  }

  /** And nothing else is: a name means a value exactly when it spells that value's name. */
  lemma {:induction false} AcceptedIff<T>(pairs: seq<(T, string)>, name: string, value: T)
    requires DistinctKeys(pairs) && DistinctNames(pairs)
    ensures Build(pairs).ToEnum(name) == Some(value)
        <==> exists i :: 0 <= i < |pairs| && pairs[i].0 == value && SameSpelling(pairs[i].1, name)
  {
    BuildToEnum(pairs, name);
    if i :| 0 <= i < |pairs| && SameSpelling(pairs[i].1, name) {
      SpellingRelates(pairs[i].1, name, name);
      OnlySpelling(pairs, i, name);
    }
  }

  lemma BuildStep<T>(pairs: seq<(T, string)>, key: T, value: string)
    ensures Build(pairs + [(key, value)]) == Build(pairs).Added(key, value)
  {
    assert (pairs + [(key, value)])[..|pairs + [(key, value)]| - 1] == pairs;
  }

  class EnumConverter<T(==)> {
    var enumToString: map<T, string>
    var stringToEnum: map<string, T>
    ghost var added: seq<(T, string)>  // every conversion added so far

    function View(): Names<T>
      reads this
    {
      Names(enumToString, stringToEnum)
    }

    ghost predicate Valid()
      reads this
    {
      View() == Build(added)
    }

    constructor ()
      ensures Valid() && added == []
    {
      enumToString, stringToEnum, added := map[], map[], [];
    }

    method AddConversion(key: T, value: string)
      requires Valid()
      modifies this
      ensures Valid() && added == old(added) + [(key, value)]
    {
      BuildStep(added, key, value);
      added := added + [(key, value)];
      if key !in enumToString {
        enumToString := enumToString[key := value];
      }
      if Fold(value) !in stringToEnum {
        stringToEnum := stringToEnum[Fold(value) := key];
      }
    }

    /** The name of a value is the first one added for it; None stands for the exception of at(). */
    method ToString(key: T) returns (name: Option<string>)
      requires Valid()
      ensures name.Some? <==> exists i :: 0 <= i < |added| && added[i].0 == key
      ensures forall i :: 0 <= i < |added| && added[i].0 == key && (forall j :: 0 <= j < i ==> added[j].0 != key)
                ==> name == Some(added[i].1)
    {
      BuildName(added, key);
      name := if key in enumToString then Some(enumToString[key]) else None;
    }

    /** The value of a name is the first one added under it, in any letter case. */
    method ToEnum(name: string) returns (key: Option<T>)
      requires Valid()
      ensures key.Some? <==> exists i :: 0 <= i < |added| && SameSpelling(added[i].1, name)
      ensures forall i :: 0 <= i < |added| && SameSpelling(added[i].1, name)
                && (forall j :: 0 <= j < i ==> !SameSpelling(added[j].1, name))
                ==> key == Some(added[i].0)
    {
      BuildToEnum(added, name);
      key := if Fold(name) in stringToEnum then Some(stringToEnum[Fold(name)]) else None;
    }
  }
}
