/** Shared vocabulary: an optional value and the order-preserving
    filter-map that every "loop, test, append" in the scraper builds. */
module Common {

  datatype Option<+T> = None | Some(value: T)

  /** The list an `if f(x) is not None: out.append(...)` loop over `xs`
      builds, defined from the end so that a loop invariant can use it. */
  function Select<T, U>(xs: seq<T>, f: T -> Option<U>): (ys: seq<U>)
    ensures |ys| <= |xs|
  {
    if xs == [] then []
    else Select(xs[..|xs| - 1], f) + Pick(f(xs[|xs| - 1]))
  }

  function Pick<U>(o: Option<U>): seq<U> {
    match o
    case Some(y) => [y]
    case None => []
  }

  /** The positions of `xs` whose element `f` keeps, in ascending order. */
  function KeptIndices<T, U>(xs: seq<T>, f: T -> Option<U>): seq<nat> {
    if xs == [] then []
    else KeptIndices(xs[..|xs| - 1], f) + (if f(xs[|xs| - 1]).Some? then [|xs| - 1] else [])
  }

  /** Select keeps exactly the elements that `f` accepts, in their
      original order: its output is the subsequence of `xs` at the
      ascending positions KeptIndices(xs, f). */
  lemma {:induction false} SelectIsSubsequence<T, U>(xs: seq<T>, f: T -> Option<U>)
    ensures |KeptIndices(xs, f)| == |Select(xs, f)|
    ensures forall k :: 0 <= k < |KeptIndices(xs, f)| ==>
              KeptIndices(xs, f)[k] < |xs| && f(xs[KeptIndices(xs, f)[k]]) == Some(Select(xs, f)[k])
    ensures forall k, l :: 0 <= k < l < |KeptIndices(xs, f)| ==> KeptIndices(xs, f)[k] < KeptIndices(xs, f)[l]
    ensures forall i :: 0 <= i < |xs| ==> (f(xs[i]).Some? <==> i in KeptIndices(xs, f))
  {
    if xs != [] {
      var front := xs[..|xs| - 1];
      SelectIsSubsequence(front, f);
      var idx, ys := KeptIndices(front, f), Select(front, f);
      assert forall i :: 0 <= i < |front| ==> front[i] == xs[i];
      if f(xs[|xs| - 1]).Some? {
        assert KeptIndices(xs, f) == idx + [|xs| - 1];
        assert Select(xs, f) == ys + [f(xs[|xs| - 1]).value];
      } else {
        assert KeptIndices(xs, f) == idx;
        assert Select(xs, f) == ys;
      }
    }
  }

  /** Every element of the output comes from an element of the input. */
  lemma SelectMember<T, U>(xs: seq<T>, f: T -> Option<U>, k: nat)
    requires k < |Select(xs, f)|
    ensures exists i :: 0 <= i < |xs| && f(xs[i]) == Some(Select(xs, f)[k])
  {
    SelectIsSubsequence(xs, f);
    var i := KeptIndices(xs, f)[k];
    assert f(xs[i]) == Some(Select(xs, f)[k]);
  }

  /** The first output is the image of the first accepted input. */
  lemma SelectHead<T, U>(xs: seq<T>, f: T -> Option<U>, i: nat)
    requires i < |xs| && f(xs[i]).Some?
    requires forall j :: 0 <= j < i ==> f(xs[j]).None?
    ensures |Select(xs, f)| > 0 && Select(xs, f)[0] == f(xs[i]).value
  {
    SelectIsSubsequence(xs, f);
    var idx := KeptIndices(xs, f);
    assert i in idx;
    var k :| 0 <= k < |idx| && idx[k] == i;
    assert idx[0] <= idx[k];
    assert f(xs[idx[0]]).Some?;
  }

  /** Nothing is output when `f` accepts nothing. */
  lemma SelectEmpty<T, U>(xs: seq<T>, f: T -> Option<U>)
    requires forall j :: 0 <= j < |xs| ==> f(xs[j]).None?
    ensures Select(xs, f) == []
  {
    SelectIsSubsequence(xs, f);
  }

  /** Select advances by one input element at a time (the loop step). */
  lemma SelectStep<T, U>(xs: seq<T>, f: T -> Option<U>, i: nat)
    requires i < |xs|
    ensures Select(xs[..i + 1], f) == Select(xs[..i], f) + Pick(f(xs[i]))
  {
    assert xs[..i + 1][..i] == xs[..i];
  }

  /** Filtering a concatenation filters each part: the output does not
      depend on how the input was cut into pieces. */
  lemma {:induction false} SelectAppend<T, U>(xs: seq<T>, ys: seq<T>, f: T -> Option<U>)
    ensures Select(xs + ys, f) == Select(xs, f) + Select(ys, f)
    decreases |ys|
  {
    if ys != [] {
      var front := ys[..|ys| - 1];
      assert (xs + ys)[..|xs + ys| - 1] == xs + front;
      assert (xs + ys)[|xs + ys| - 1] == ys[|ys| - 1];
      SelectAppend(xs, front, f);
      assert Select(ys, f) == Select(front, f) + Pick(f(ys[|ys| - 1]));
    } else {
      assert xs + ys == xs;
    }
  }

  function Flatten<T>(xss: seq<seq<T>>): seq<T> {
    if xss == [] then [] else Flatten(xss[..|xss| - 1]) + xss[|xss| - 1]
  }

  lemma FlattenStep<T>(xss: seq<seq<T>>, i: nat)
    requires i < |xss|
    ensures Flatten(xss[..i + 1]) == Flatten(xss[..i]) + xss[i]
  {
    assert xss[..i + 1][..i] == xss[..i];
  }
}
