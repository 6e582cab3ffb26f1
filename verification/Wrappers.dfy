/** Option and Result, as Rust's standard library has them. */
module Wrappers {
  datatype Option<+T> = None | Some(value: T)

  datatype Result<+T, +E> = Ok(value: T) | Err(error: E) {
    predicate IsFailure() { Err? }

    function PropagateFailure<U>(): Result<U, E>
      requires Err?
    {
      Err(error)
    }

    function Extract(): T
      requires Ok?
    {
      value
    }
  }

  /** `iter().map(f).collect::<Option<Vec<_>>>()`. */
  function Collect<A, B>(s: seq<A>, f: A -> Option<B>): (r: Option<seq<B>>)
    ensures r.Some? ==> |r.value| == |s| && forall i | 0 <= i < |s| :: f(s[i]) == Some(r.value[i])
    ensures r.None? ==> exists i | 0 <= i < |s| :: f(s[i]).None?
  {
    if s == [] then Some([])
    else
      var first := f(s[0]);
      var rest := Collect(s[1..], f);
      if first.None? then None
      else if rest.None? then
        assert exists i | 0 <= i < |s[1..]| :: f(s[1..][i]).None?;
        None
      else Some([first.value] + rest.value)
  }

  /** `iter().map(f).collect::<Result<Vec<_>, _>>()`: the first error wins. */
  function CollectOk<A, B, E>(s: seq<A>, f: A -> Result<B, E>): (r: Result<seq<B>, E>)
    ensures r.Ok? ==> |r.value| == |s| && forall i | 0 <= i < |s| :: f(s[i]) == Ok(r.value[i])
    ensures r.Err? ==> exists i | 0 <= i < |s| :: f(s[i]) == Err(r.error) && forall j | 0 <= j < i :: f(s[j]).Ok?
  {
    if s == [] then Ok([])
    else
      var first := f(s[0]);
      if first.Err? then Err(first.error)
      else
        var rest := CollectOk(s[1..], f);
        if rest.Err? then
          assert exists i | 0 <= i < |s| :: f(s[i]) == Err(rest.error) && forall j | 0 <= j < i :: f(s[j]).Ok? by {
            var i :| 0 <= i < |s[1..]| && f(s[1..][i]) == Err(rest.error) && forall j | 0 <= j < i :: f(s[1..][j]).Ok?;
            assert s[i + 1] == s[1..][i];
            assert forall j | 0 < j < i + 1 :: s[j] == s[1..][j - 1];
          }
          Err(rest.error)
        else Ok([first.value] + rest.value)
  }

  predicate Distinct<T(==)>(s: seq<T>) {
    forall i, j | 0 <= i < j < |s| :: s[i] != s[j]
  }
}
