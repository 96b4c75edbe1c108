/** What every module shares: optional values, results with an error, and facts about set sizes. */
module Prelude {

  datatype Option<+T> = None | Some(value: T) {
    predicate IsFailure() {
      None?
    }

    function PropagateFailure<U>(): Option<U>
      requires None?
    {
      None
    }

    function Extract(): T
      requires Some?
    {
      value
    }

    function GetOr(default: T): T {
      if Some? then value else default
    }
  }

  datatype Result<+T, +E> = Ok(value: T) | Err(error: E) {
    predicate IsFailure() {
      Err?
    }

    function PropagateFailure<U>(): Result<U, E>
      requires Err?
    {
      Err(error)
    }

    function Extract(): T
      requires Ok?
    {
      value
    }
  }

  function Max(a: int, b: int): int {
    if a >= b then a else b
  }

  lemma {:induction false} SubsetSize<T>(s: set<T>, t: set<T>)
    requires s <= t
    ensures |s| <= |t|
  {
    assert t == s + (t - s);
  }

  /** An image is never larger than its set, and as large exactly when the function is one-to-one on
      the set. */
  lemma {:induction false} ImageSize<S, T>(s: set<S>, f: S -> T, image: set<T>)
    requires image == set x | x in s :: f(x)
    ensures |image| <= |s|
    ensures |image| == |s| <==> forall x, y | x in s && y in s && x != y :: f(x) != f(y)
    decreases s
  {
    if s != {} {
      var x :| x in s;
      var rest := s - {x};
      var part := set y | y in rest :: f(y);
      ImageSize(rest, f, part);
      assert image == part + {f(x)};
      if f(x) in part {
        var y :| y in rest && f(y) == f(x);
        assert image == part;
      } else {
        assert forall y | y in rest :: f(y) != f(x);
      }
    }
  }
}
