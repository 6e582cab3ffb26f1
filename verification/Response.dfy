/** Response checks shared by the providers. `f64` values are modelled as reals. */
module Response {
  import opened Wrappers
  import Json

  datatype CheckError =
    | KeyMismatch
    | NotUnit
    | Missing
    | BadSum
    | ScoreOutOfRange
    | ScoreMismatch
    | NotMostProbable
    | UnknownChoice
    | NotNearMax
    | TypeMismatch

  // ---- Objects without duplicate keys ----

  predicate UniqueKeys<V>(entries: seq<(string, V)>) {
    forall i, j | 0 <= i < j < |entries| :: entries[i].0 != entries[j].0
  }

  type Entries<V> = s: seq<(string, V)> | UniqueKeys(s) witness []

  /** The visitor of `UniqueMap`: an object is read in document order, and a repeated key is an error
      instead of replacing the value before. */
  method VisitMap<V>(members: seq<Json.Member>, decode: Json.Value -> Option<V>) returns (r: Option<Entries<V>>)
    ensures r.Some? <==>
      && (forall i, j | 0 <= i < j < |members| :: members[i].key != members[j].key)
      && (forall i | 0 <= i < |members| :: decode(members[i].value).Some?)
    ensures r.Some? ==> |r.value| == |members| && forall i | 0 <= i < |members| ::
      r.value[i].0 == members[i].key && Some(r.value[i].1) == decode(members[i].value)
  {
    var seen: set<string> := {};
    var entries: seq<(string, V)> := [];
    for i := 0 to |members|
      invariant |entries| == i
      invariant forall j | 0 <= j < i :: entries[j].0 == members[j].key && Some(entries[j].1) == decode(members[j].value)
      invariant forall k :: k in seen <==> exists j | 0 <= j < i :: members[j].key == k
      invariant UniqueKeys(entries)
    {
      var (key, value) := (members[i].key, decode(members[i].value));
      if value.None? || key in seen {
        return None;
      }
      seen := seen + {key};
      entries := entries + [(key, value.value)];
    }
    r := Some(entries);
  }

  function ToMap<V(==,!new)>(entries: Entries<V>): (m: map<string, V>)
    ensures forall k, v :: (k, v) in entries <==> k in m && m[k] == v
  {
    assert forall e | e in entries :: exists i :: 0 <= i < |entries| && entries[i] == e;
    map i | 0 <= i < |entries| :: entries[i].0 := entries[i].1
  }

  lemma {:induction false} DistinctSize(keys: seq<string>)
    requires Distinct(keys)
    ensures |set k | k in keys| == |keys|
  {
    if keys == [] {
      assert (set k | k in keys) == {};
    } else {
      DistinctSize(keys[1..]);
      assert (set k | k in keys) == (set k | k in keys[1..]) + {keys[0]};
      assert keys[0] !in keys[1..];
    }
  }

  function KeysOf<V>(entries: seq<(string, V)>): (keys: seq<string>)
    ensures |keys| == |entries| && forall i | 0 <= i < |entries| :: keys[i] == entries[i].0
  {
    seq(|entries|, i requires 0 <= i < |entries| => entries[i].0)
  }

  lemma KeysOfMap<V(!new)>(entries: Entries<V>)
    ensures ToMap(entries).Keys == (set k | k in KeysOf(entries))
  {
    var (m, keys) := (ToMap(entries), KeysOf(entries));
    forall k | k in m.Keys ensures k in keys {
      assert (k, m[k]) in entries;
      var i :| 0 <= i < |entries| && entries[i] == (k, m[k]);
      assert keys[i] == k;
    }
    forall k | k in keys ensures k in m.Keys {
      var i :| 0 <= i < |keys| && keys[i] == k;
      assert (k, entries[i].1) == entries[i];
    }
  }

  lemma MapSize<V(!new)>(entries: Entries<V>)
    ensures |ToMap(entries)| == |entries|
  {
    KeysOfMap(entries);
    DistinctSize(KeysOf(entries));
    assert |ToMap(entries)| == |ToMap(entries).Keys|;
  }

  /** `Vec::swap_remove`: the last element moves into the gap. */
  function SwapRemove<T>(s: seq<T>, i: nat): seq<T>
    requires i < |s|
  {
    s[i := s[|s| - 1]][..|s| - 1]
  }

  lemma SwapRemoveAt<T>(s: seq<T>, i: nat, j: nat)
    requires i < |s| && j < |s| - 1
    ensures SwapRemove(s, i)[j] == s[if j == i then |s| - 1 else j]
  {
  }

  lemma SwapRemoveUnique<V>(s: Entries<V>, i: nat)
    requires i < |s|
    ensures UniqueKeys(SwapRemove(s, i))
  {
    var t := SwapRemove(s, i);
    forall j, k | 0 <= j < k < |t| ensures t[j].0 != t[k].0 {
      SwapRemoveAt(s, i, j);
      SwapRemoveAt(s, i, k);
    }
  }

  lemma SwapRemoveHas<V>(s: Entries<V>, i: nat, e: (string, V))
    requires i < |s|
    ensures e in SwapRemove(s, i) <==> e in s && e.0 != s[i].0
  {
    var t := SwapRemove(s, i);
    if e in t {
      var j :| 0 <= j < |t| && t[j] == e;
      SwapRemoveAt(s, i, j);
    }
    if e in s && e.0 != s[i].0 {
      var j :| 0 <= j < |s| && s[j] == e;
      SwapRemoveAt(s, i, if j == |s| - 1 then i else j);
    }
  }

  lemma SameMap<V>(m: map<string, V>, n: map<string, V>, key: string)
    requires forall k | k in m :: k in n && n[k] == m[k] && k != key
    requires forall k | k in n && k != key :: k in m
    ensures m == n - {key}
  {
  }

  lemma SwapRemoved<V(!new)>(s: Entries<V>, t: Entries<V>, i: nat)
    requires i < |s| && t == SwapRemove(s, i)
    ensures ToMap(t) == ToMap(s) - {s[i].0}
  {
    var m, n := ToMap(t), ToMap(s);
    forall k | k in m ensures k in n && n[k] == m[k] && k != s[i].0 {
      assert (k, m[k]) in t;
      SwapRemoveHas(s, i, (k, m[k]));
    }
    forall k | k in n && k != s[i].0 ensures k in m {
      assert (k, n[k]) in s;
      SwapRemoveHas(s, i, (k, n[k]));
    }
    SameMap(m, n, s[i].0);
  }

  /** `UniqueMap`: the entries of a JSON object in document order. */
  class UniqueMap<V(==,!new)> {
    var entries: Entries<V>

    constructor (entries: Entries<V>)
      ensures this.entries == entries
    {
      this.entries := entries;
    }

    /** `take`: removes the entry under `key`; the order of the others may change. */
    method Take(key: string) returns (r: Option<V>)
      modifies this
      ensures r == if key in old(ToMap(entries)) then Some(old(ToMap(entries))[key]) else None
      ensures ToMap(entries) == old(ToMap(entries)) - {key}
      ensures |entries| == old(|entries|) - (if r.Some? then 1 else 0)
    {
      var index := 0;
      while index < |entries| && entries[index].0 != key
        invariant index <= |entries|
        invariant forall i | 0 <= i < index :: entries[i].0 != key
      {
        index := index + 1;
      }
      if index == |entries| {
        return None;
      }
      r := Some(entries[index].1);
      SwapRemoveUnique(entries, index);
      var after: Entries<V> := SwapRemove(entries, index);
      SwapRemoved(entries, after, index);
      entries := after;
    }
  }

  // ---- Distributions ----

  predicate InUnit(x: real) { 0.0 <= x <= 1.0 }

  function Unit(value: real): Result<real, CheckError> {
    if InUnit(value) then Ok(value) else Err(NotUnit)
  }

  function Required(value: Option<real>): Result<real, CheckError> {
    if value.None? then Err(Missing) else Unit(value.value)
  }

  function Abs(x: real): real { if x < 0.0 then -x else x }

  function Sum(ps: seq<real>): real {
    if ps == [] then 0.0 else ps[0] + Sum(ps[1..])
  }

  /** The values under `keys`, each taken once. */
  function Ordered(m: map<string, real>, keys: seq<string>): (r: Result<seq<real>, CheckError>)
    ensures r.Ok? ==> |r.value| == |keys|
  {
    if keys == [] then Ok([])
    else if keys[0] !in m then Err(KeyMismatch)
    else if !InUnit(m[keys[0]]) then Err(NotUnit)
    else
      var rest := Ordered(m - {keys[0]}, keys[1..]);
      if rest.Err? then rest else Ok([m[keys[0]]] + rest.value)
  }

  function SumTolerance(n: nat, eps: real): real {
    n as real * eps + 0.000001
  }

  /** What `distribution` returns, from the object as a map: document order plays no part. */
  function DistributionOf(m: map<string, real>, keys: seq<string>, eps: real): (r: Result<seq<real>, CheckError>)
    ensures r.Ok? ==> |r.value| == |keys|
  {
    if |m| != |keys| then Err(KeyMismatch)
    else
      var ordered := Ordered(m, keys);
      if ordered.Err? then ordered
      else if Abs(Sum(ordered.value) - 1.0) > SumTolerance(|keys|, eps) then Err(BadSum)
      else ordered
  }

  lemma {:induction false} SumAppend(ps: seq<real>, p: real)
    ensures Sum(ps + [p]) == Sum(ps) + p
  {
    if ps == [] {
      assert ps + [p] == [p];
    } else {
      assert (ps + [p])[1..] == ps[1..] + [p];
      SumAppend(ps[1..], p);
    }
  }

  /** The loop of `distribution`, with the sum of what it collects. */
  method TakeAll(probabilities: UniqueMap<real>, keys: seq<string>)
    returns (r: Result<seq<real>, CheckError>, sum: real)
    modifies probabilities
    ensures r == Ordered(old(ToMap(probabilities.entries)), keys)
    ensures r.Ok? ==> sum == Sum(r.value)
  {
    ghost var all := Ordered(ToMap(probabilities.entries), keys);
    var ordered: seq<real> := [];
    sum := 0.0;
    assert keys[0..] == keys && (all.Ok? ==> [] + all.value == all.value);
    for i := 0 to |keys|
      invariant |ordered| == i && sum == Sum(ordered)
      invariant all == Prepend(ordered, Ordered(ToMap(probabilities.entries), keys[i..]))
    {
      OrderedStep(all, ordered, ToMap(probabilities.entries), keys, i);
      var value := probabilities.Take(keys[i]);
      if value.None? {
        return Err(KeyMismatch), sum;
      }
      if !InUnit(value.value) {
        return Err(NotUnit), sum;
      }
      SumAppend(ordered, value.value);
      ordered := ordered + [value.value];
      sum := sum + value.value;
    }
    assert ordered + [] == ordered;
    r := Ok(ordered);
  }

  lemma OrderedStep(all: Result<seq<real>, CheckError>, ordered: seq<real>, m: map<string, real>, keys: seq<string>, i: nat)
    requires i < |keys| && all == Prepend(ordered, Ordered(m, keys[i..]))
    ensures keys[i] !in m ==> all == Err(KeyMismatch)
    ensures keys[i] in m && !InUnit(m[keys[i]]) ==> all == Err(NotUnit)
    ensures keys[i] in m && InUnit(m[keys[i]]) ==>
      all == Prepend(ordered + [m[keys[i]]], Ordered(m - {keys[i]}, keys[i + 1..]))
  {
    assert keys[i..][0] == keys[i] && keys[i..][1..] == keys[i + 1..];
    if keys[i] in m {
      var rest := Ordered(m - {keys[i]}, keys[i + 1..]);
      if rest.Ok? {
        assert ordered + ([m[keys[i]]] + rest.value) == ordered + [m[keys[i]]] + rest.value;
      }
    }
  }

  ghost function Prepend(ps: seq<real>, r: Result<seq<real>, CheckError>): Result<seq<real>, CheckError> {
    if r.Err? then r else Ok(ps + r.value)
  }

  /** `distribution`. */
  method Distribution(probabilities: UniqueMap<real>, keys: seq<string>, eps: real)
    returns (r: Result<seq<real>, CheckError>)
    modifies probabilities
    ensures r == DistributionOf(old(ToMap(probabilities.entries)), keys, eps)
  {
    MapSize(probabilities.entries);
    if |probabilities.entries| != |keys| {
      return Err(KeyMismatch);
    }
    var sum;
    r, sum := TakeAll(probabilities, keys);
    if r.Ok? && Abs(sum - 1.0) > SumTolerance(|keys|, eps) {
      return Err(BadSum);
    }
  }

  ghost predicate IsDistribution(m: map<string, real>, keys: seq<string>, ps: seq<real>) {
    && Distinct(keys) && |ps| == |keys|
    && m.Keys == (set k | k in keys)
    && (forall i | 0 <= i < |keys| :: keys[i] in m && ps[i] == m[keys[i]] && InUnit(ps[i]))
  }

  lemma {:induction false} OrderedMeaning(m: map<string, real>, keys: seq<string>, ps: seq<real>)
    ensures Ordered(m, keys) == Ok(ps) <==>
      Distinct(keys) && |ps| == |keys| && forall i | 0 <= i < |keys| :: keys[i] in m && ps[i] == m[keys[i]] && InUnit(ps[i])
  {
    if keys != [] && keys[0] in m && |ps| == |keys| {
      var rest := m - {keys[0]};
      OrderedMeaning(rest, keys[1..], ps[1..]);
      assert ps == [ps[0]] + ps[1..];
      assert keys == [keys[0]] + keys[1..];
    }
  }

  lemma {:induction false} SubsetSize(a: set<string>, b: set<string>)
    requires a <= b
    ensures |a| <= |b|
  {
    if a != {} {
      var x :| x in a;
      SubsetSize(a - {x}, b - {x});
    }
  }

  lemma SubsetOfSameSize(a: set<string>, b: set<string>)
    requires a <= b && |a| == |b|
    ensures a == b
  {
    if a != b {
      var x :| x in b && x !in a;
      var rest := b - {x};
      assert a <= rest && |rest| == |b| - 1;
      SubsetSize(a, rest);
    }
  }

  /** A distribution is accepted exactly when its keys are the labels, each once, its values lie in
      [0, 1] and their sum is near 1; entry `i` is then the value under label `i`. */
  lemma DistributionMeaning(m: map<string, real>, keys: seq<string>, eps: real, ps: seq<real>)
    ensures DistributionOf(m, keys, eps) == Ok(ps) <==>
      IsDistribution(m, keys, ps) && Abs(Sum(ps) - 1.0) <= SumTolerance(|keys|, eps)
  {
    OrderedIsDistribution(m, keys, ps);
  }

  lemma OrderedIsDistribution(m: map<string, real>, keys: seq<string>, ps: seq<real>)
    ensures |m| == |keys| && Ordered(m, keys) == Ok(ps) <==> IsDistribution(m, keys, ps)
  {
    OrderedMeaning(m, keys, ps);
    KeysMeaning(m, keys);
  }

  /** A map of as many entries as there are labels, with an entry for each, has exactly the labels. */
  lemma KeysMeaning(m: map<string, real>, keys: seq<string>)
    ensures Distinct(keys) ==>
      (m.Keys == (set k | k in keys) <==> |m| == |keys| && forall i | 0 <= i < |keys| :: keys[i] in m)
  {
    if Distinct(keys) {
      var labels := set k | k in keys;
      DistinctSize(keys);
      assert |m.Keys| == |m|;
      if forall i | 0 <= i < |keys| :: keys[i] in m {
        assert labels <= m.Keys;
        if |m| == |keys| {
          SubsetOfSameSize(labels, m.Keys);
        }
      }
      if m.Keys == labels {
        forall i | 0 <= i < |keys| ensures keys[i] in m {
          assert keys[i] in labels;
        }
      }
    }
  }

  lemma AcceptedNotEmpty(m: map<string, real>, keys: seq<string>, eps: real)
    requires DistributionOf(m, keys, eps).Ok?
    ensures DistributionOf(m, keys, eps).value != []
  {
  }

  /** Reordering the document does not change the map, hence not the outcome either. */
  lemma OrderIndependent<V(!new)>(a: Entries<V>, b: Entries<V>)
    requires multiset(a) == multiset(b)
    ensures ToMap(a) == ToMap(b)
  {
    var m, n := ToMap(a), ToMap(b);
    forall k | k in m ensures k in n && n[k] == m[k] {
      assert (k, m[k]) in a && (k, m[k]) in multiset(b);
    }
    forall k | k in n ensures k in m && m[k] == n[k] {
      assert (k, n[k]) in b && (k, n[k]) in multiset(a);
    }
  }

  // ---- The other checks ----

  predicate IsArgmax(ps: seq<real>, index: nat)
    requires index < |ps|
  {
    forall i | 0 <= i < |ps| :: ps[index] >= ps[i]
  }

  /** The sum of `level * p`, levels counted from `level`. */
  function Weighted(ps: seq<real>, level: nat): real {
    if ps == [] then 0.0 else level as real * ps[0] + Weighted(ps[1..], level + 1)
  }

  function ScoreTolerance(n: nat, eps: real): real {
    eps * (n as real * (n as real - 1.0) / 2.0 + 1.0) + 0.000001
  }

  function Expectation(expected: real, ps: seq<real>, eps: real): Result<real, CheckError>
    requires ps != []
  {
    if !(0.0 <= expected <= (|ps| - 1) as real) then Err(ScoreOutOfRange)
    else if Abs(expected - Weighted(ps, 0)) > ScoreTolerance(|ps|, eps) then Err(ScoreMismatch)
    else Ok(expected)
  }

  function Max(a: real, b: real): real { if a < b then b else a }

  function MaxOf(ps: seq<real>): real {
    if ps == [] then 0.0 else Max(ps[0], MaxOf(ps[1..]))
  }
}
