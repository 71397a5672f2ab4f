/** Small value types shared by the trainer and the bot. */
module Common {

  datatype Option<T> = None | Some(value: T)

  datatype Result<T, E> = Success(value: T) | Failure(error: E)

  /** A class label or a prediction: the integers 0 and 1. */
  type Bit = b: int | 0 <= b <= 1

  /** `str(b)` for a 0/1 integer. */
  function BitText(b: Bit): (s: string)
    ensures |s| == 1 && (s == "1" <==> b == 1)
  {
    if b == 1 then "1" else "0"
  }

  /** How a script ends: its exit status and what it printed to stderr. */
  datatype Exit = Exit(code: int, message: string)

  /** `ps` occurs in `qs` in order, possibly with gaps. */
  predicate Subsequence<T(==)>(ps: seq<T>, qs: seq<T>)
    decreases |qs|
  {
    ps == [] || (qs != [] && ((ps[0] == qs[0] && Subsequence(ps[1..], qs[1..])) || Subsequence(ps, qs[1..])))
  }

  lemma {:induction false} SubsequenceTrans<T>(a: seq<T>, b: seq<T>, c: seq<T>)
    requires Subsequence(a, b) && Subsequence(b, c)
    ensures Subsequence(a, c)
    decreases |c|
  {
    if a != [] {
      if b[0] == c[0] && Subsequence(b[1..], c[1..]) {
        if a[0] == b[0] && Subsequence(a[1..], b[1..]) {
          SubsequenceTrans(a[1..], b[1..], c[1..]);
        } else {
          SubsequenceTrans(a, b[1..], c[1..]);
        }
      } else {
        SubsequenceTrans(a, b, c[1..]);
      }
    }
  }

  /** The same element added at the end of both keeps the order. */
  lemma {:induction false} SubsequenceSnoc<T>(ps: seq<T>, qs: seq<T>, x: T)
    requires Subsequence(ps, qs)
    ensures Subsequence(ps + [x], qs + [x])
    decreases |qs|
  {
    if qs == [] {
      assert ps == [];
      assert ([x] + [])[1..] == [];
    } else {
      assert (qs + [x])[1..] == qs[1..] + [x];
      if ps == [] {
        SubsequenceSnoc(ps, qs[1..], x);
      } else if ps[0] == qs[0] && Subsequence(ps[1..], qs[1..]) {
        SubsequenceSnoc(ps[1..], qs[1..], x);
        assert (ps + [x])[1..] == ps[1..] + [x];
      } else {
        SubsequenceSnoc(ps, qs[1..], x);
      }
    }
  }

  /** An element added at the end of the longer sequence keeps the order. */
  lemma {:induction false} SubsequenceExtend<T>(ps: seq<T>, qs: seq<T>, x: T)
    requires Subsequence(ps, qs)
    ensures Subsequence(ps, qs + [x])
    decreases |qs|
  {
    if ps != [] {
      assert (qs + [x])[1..] == qs[1..] + [x];
      if ps[0] == qs[0] && Subsequence(ps[1..], qs[1..]) {
        SubsequenceExtend(ps[1..], qs[1..], x);
      } else {
        SubsequenceExtend(ps, qs[1..], x);
      }
    }
  }
}
