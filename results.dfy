/** Failure-carrying values shared by every module: Python's raised exceptions and
    JavaScript's thrown errors become the Failure side of a Result. */
module Results {

  datatype Option<+T> = None | Some(value: T)

  datatype Result<+T, +E> = Success(value: T) | Failure(error: E)


  /** A raised Python exception: its class and what `str(e)` gives. `External` stands for
      an exception raised by a library or service call that the model takes as an input. */
  datatype Error =
    | ValueError(message: string)
    | Exception(message: string)
    | External(message: string)

  /** All the values in order, or the first error. */
  function Collect<T, E>(rs: seq<Result<T, E>>): (r: Result<seq<T>, E>)
    ensures r.Success? <==> forall i :: 0 <= i < |rs| ==> rs[i].Success?
    ensures r.Success? ==> |r.value| == |rs| && forall i :: 0 <= i < |rs| ==> rs[i].value == r.value[i]
  {
    if rs == [] then Success([])
    else if rs[0].Failure? then Failure(rs[0].error)
    else
      var rest := Collect(rs[1..]);
      if rest.Failure? then rest
      else
        assert forall i :: 1 <= i < |rs| ==> rs[i] == rs[1..][i - 1];
        Success([rs[0].value] + rest.value)
  }

  /** The error `Collect` reports is that of the first failing entry. */
  lemma {:induction false} CollectFirstFailure<T, E>(rs: seq<Result<T, E>>, k: nat)
    requires k < |rs| && rs[k].Failure?
    requires forall i :: 0 <= i < k ==> rs[i].Success?
    ensures Collect(rs) == Failure(rs[k].error)
  {
    if k > 0 {
      CollectFirstFailure(rs[1..], k - 1);
    }
  }

  lemma {:induction false} CollectSnoc<T, E>(rs: seq<Result<T, E>>, x: T)
    requires Collect(rs).Success?
    ensures Collect(rs + [Success(x)]) == Success(Collect(rs).value + [x])
  {
    if rs == [] {
      var one: seq<Result<T, E>> := [Success(x)];
      assert rs + [Success(x)] == one;
      assert one[1..] == [];
      assert Collect(one[1..]) == Success([]);
      assert Collect(one) == Success([x] + []);
      assert [x] + [] == [x];
      assert Collect(rs) == Success([]);
      assert Collect(rs).value + [x] == [x];
    } else {
      CollectSnoc(rs[1..], x);
      var longer := rs + [Success(x)];
      assert longer[0] == rs[0];
      assert longer[1..] == rs[1..] + [Success(x)];
      var tail := Collect(rs[1..]).value;
      assert Collect(rs).value == [rs[0].value] + tail;
      assert Collect(longer) == Success([rs[0].value] + (tail + [x]));
      assert [rs[0].value] + (tail + [x]) == ([rs[0].value] + tail) + [x];
    }
  }

  /** One more step of a left-to-right loop over `rs` that has succeeded so far: a failure
      ends it with that error, a success extends the collected values. */
  lemma CollectPrefixStep<T, E>(rs: seq<Result<T, E>>, i: nat)
    requires i < |rs| && Collect(rs[..i]).Success?
    ensures rs[i].Failure? ==> Collect(rs) == Failure(rs[i].error)
    ensures rs[i].Success? ==> Collect(rs[..i + 1]) == Success(Collect(rs[..i]).value + [rs[i].value])
  {
    if rs[i].Failure? {
      assert forall j :: 0 <= j < i ==> rs[..i][j] == rs[j];
      CollectFirstFailure(rs, i);
    } else {
      CollectSnoc(rs[..i], rs[i].value);
      assert rs[..i + 1] == rs[..i] + [rs[i]];
    }
  }
}
