/** Outcomes of the operations that raise in the source. Each exception the
    modelled code can raise becomes an `Err` value of `Result`. */
module Outcomes {

  /** The exceptions the modelled code raises. */
  datatype Error =
    | IndexError         // indexing an empty list or string (`x[-1]`, `x[0]`)
    | KeyError           // a token, "H2O" or "Proton" missing from the mass table
    | ValueError         // `np.zeros` of a negative size, empty `np.concatenate`,
                         // `raise ValueError(..)`, unpacking `zip(*[])`
    | InvalidTerminalMod // the last branch of `add_fixed_mod_terminal`

  /** A value or the exception that was raised instead; usable with `:-`. */
  datatype Result<+T> = Ok(value: T) | Err(error: Error) {
    predicate IsFailure() { Err? }

    function PropagateFailure<U>(): Result<U>
      requires Err?
    {
      Err(error)
    }

    function Extract(): T
      requires Ok?
    {
      value
    }
  }

  /** f applied to each element in turn; the first failure is the outcome. */
  function MapAll<A, B>(f: A -> Result<B>, s: seq<A>): Result<seq<B>>
  {
    if s == [] then Ok([])
    else
      var init :- MapAll(f, s[..|s| - 1]);
      var last :- f(s[|s| - 1]);
      Ok(init + [last])
  }

  /** Once a prefix fails, the whole list fails the same way. */
  lemma {:induction false} MapAllErrSticks<A, B>(f: A -> Result<B>, s: seq<A>, i: nat)
    requires i <= |s| && MapAll(f, s[..i]).Err?
    ensures MapAll(f, s) == MapAll(f, s[..i])
    decreases |s| - i
  {
    if i < |s| {
      var next := s[..i + 1];
      assert next[..i] == s[..i];
      MapAllErrSticks(f, s, i + 1);
    } else {
      assert s[..i] == s;
    }
  }

  /** Extending a successful prefix by an element f succeeds on. */
  lemma MapAllSnoc<A, B>(f: A -> Result<B>, s: seq<A>, c: nat, parts: seq<B>, v: B)
    requires c < |s| && MapAll(f, s[..c]) == Ok(parts) && f(s[c]) == Ok(v)
    ensures MapAll(f, s[..c + 1]) == Ok(parts + [v])
  {
    var t := s[..c + 1];
    assert t[..|t| - 1] == s[..c];
  }

  /** After a successful prefix, the first failure is the outcome. */
  lemma MapAllFailsAt<A, B>(f: A -> Result<B>, s: seq<A>, c: nat)
    requires c < |s| && MapAll(f, s[..c]).Ok? && f(s[c]).Err?
    ensures MapAll(f, s) == Err(f(s[c]).error)
  {
    var t := s[..c + 1];
    assert t[..|t| - 1] == s[..c];
    MapAllErrSticks(f, s, c + 1);
  }

  /** MapAll succeeds exactly when f succeeds on every element, and then holds
      f's value for each element, in order. */
  lemma {:induction false} MapAllShape<A, B>(f: A -> Result<B>, s: seq<A>)
    ensures MapAll(f, s).Ok? <==> forall i :: 0 <= i < |s| ==> f(s[i]).Ok?
    ensures MapAll(f, s).Ok? ==>
      && |MapAll(f, s).value| == |s|
      && forall i :: 0 <= i < |s| ==> f(s[i]) == Ok(MapAll(f, s).value[i])
  {
    if s != [] {
      var init := s[..|s| - 1];
      MapAllShape(f, init);
      assert forall i :: 0 <= i < |init| ==> init[i] == s[i];
    }
  }

  /** A failure of MapAll is f's failure on the first element where f fails. */
  lemma {:induction false} MapAllFirstError<A, B>(f: A -> Result<B>, s: seq<A>)
    ensures MapAll(f, s).Err? ==>
      exists i :: 0 <= i < |s| && f(s[i]) == Err(MapAll(f, s).error) &&
        forall k :: 0 <= k < i ==> f(s[k]).Ok?
    ensures forall i ::
      (0 <= i < |s| && f(s[i]).Err? && (forall k :: 0 <= k < i ==> f(s[k]).Ok?)) ==>
      MapAll(f, s) == Err(f(s[i]).error)
  {
    if s != [] {
      var init := s[..|s| - 1];
      MapAllFirstError(f, init);
      MapAllShape(f, init);
      assert forall i :: 0 <= i < |init| ==> init[i] == s[i];
    }
  }

  /** After a successful prefix s[..i], the next chunk s[i..end] either fails,
      and its error is the outcome of the whole list, or extends the prefix. */
  lemma MapAllChunk<A, B>(f: A -> Result<B>, s: seq<A>, i: nat, end: nat, done: seq<B>)
    requires i <= end <= |s| && MapAll(f, s[..i]) == Ok(done)
    ensures MapAll(f, s[i..end]).Err? ==> MapAll(f, s) == Err(MapAll(f, s[i..end]).error)
    ensures MapAll(f, s[i..end]).Ok? ==> MapAll(f, s[..end]) == Ok(done + MapAll(f, s[i..end]).value)
  {
    MapAllAppend(f, s[..i], s[i..end]);
    assert s[..i] + s[i..end] == s[..end];
    if MapAll(f, s[i..end]).Err? {
      MapAllErrSticks(f, s, end);
    }
  }

  /** MapAll over a join: the first part's outcome, then the second's. */
  lemma {:induction false} MapAllAppend<A, B>(f: A -> Result<B>, a: seq<A>, b: seq<A>)
    ensures MapAll(f, a + b) ==
      (if MapAll(f, a).Err? then MapAll(f, a)
       else if MapAll(f, b).Err? then MapAll(f, b)
       else Ok(MapAll(f, a).value + MapAll(f, b).value))
    decreases |b|
  {
    if b == [] {
      assert a + b == a;
      if MapAll(f, a).Ok? {
        assert MapAll(f, a).value + [] == MapAll(f, a).value;
      }
    } else {
      var c, b' := a + b, b[..|b| - 1];
      assert c[..|c| - 1] == a + b';
      assert c[|c| - 1] == b[|b| - 1];
      MapAllAppend(f, a, b');
      if MapAll(f, a).Ok? && MapAll(f, b').Ok? && f(b[|b| - 1]).Ok? {
        var u, v, w := MapAll(f, a).value, MapAll(f, b').value, f(b[|b| - 1]).value;
        assert MapAll(f, b).value == v + [w];
        assert u + v + [w] == u + (v + [w]);
      }
    }
  }
}
