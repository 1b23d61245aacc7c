/** Vocabulary shared by the archive model: payloads, the answers the environment
    (disk, clock, cancellation) gives to an operation, and the "keep the newest n"
    window that both bounded queues of the manager maintain. */
module ArchiveTypes {

  datatype Option<T> = None | Some(value: T)

  /** One byte of a recorded clip. */
  newtype byte = b: int | 0 <= b < 256

  const INT32_MIN := -0x8000_0000
  const INT32_MAX := 0x7FFF_FFFF

  /** A C# `int`. */
  type int32 = x: int | INT32_MIN <= x <= INT32_MAX

  /** Unchecked 32-bit two's-complement arithmetic: the `int32` congruent to `x` modulo 2^32. */
  function Wrap32(x: int): (r: int32)
    ensures INT32_MIN <= x <= INT32_MAX ==> r == x
    ensures (x - r) % 0x1_0000_0000 == 0
  {
    (x - INT32_MIN) % 0x1_0000_0000 + INT32_MIN
  }

  /** A byte[] handed to the archive; a null array and an empty one are both `[]`. */
  type Payload = seq<byte>

  /** The i-th answer of an abstract outcome sequence; answers past its end read as false. */
  function At(answers: seq<bool>, i: nat): bool
  {
    i < |answers| && answers[i]
  }

  /** The first index below `limit` whose answer is `b`, or `limit` when there is none. */
  function FirstWith(answers: seq<bool>, b: bool, limit: nat): (k: nat)
    ensures k <= limit
    ensures forall i :: 0 <= i < k ==> At(answers, i) != b
    ensures k < limit ==> At(answers, k) == b
    decreases limit
  {
    if limit == 0 then 0
    else
      var k := FirstWith(answers, b, limit - 1);
      if k < limit - 1 || At(answers, limit - 1) == b then k else limit
  }

  /** The three facts above determine FirstWith: any index with them is it. */
  lemma FirstWithUnique(answers: seq<bool>, b: bool, limit: nat, k: nat)
    requires k <= limit
    requires forall i :: 0 <= i < k ==> At(answers, i) != b
    requires k < limit ==> At(answers, k) == b
    ensures FirstWith(answers, b, limit) == k
  {
  }

  /** The newest `n` elements of `s`, in their order (all of `s` when it is shorter). */
  function LastN<T>(s: seq<T>, n: nat): (r: seq<T>)
    ensures |r| <= n && |r| <= |s|
    ensures r == s[|s| - |r|..]
    ensures |s| <= n ==> r == s
  {
    if |s| <= n then s else s[|s| - n..]
  }

  /** Moving the first element of `s` to the end of `a` does not change `a + s`. */
  lemma ShiftFirst<T>(a: seq<T>, s: seq<T>)
    requires s != []
    ensures (a + [s[0]]) + s[1..] == a + s
  {
    assert s == [s[0]] + s[1..];
  }

  /** Trimming to the newest `n` before appending more and trimming again changes nothing. */
  lemma {:induction false} LastNOfAppend<T>(x: seq<T>, y: seq<T>, n: nat)
    ensures LastN(LastN(x, n) + y, n) == LastN(x + y, n)
  {
    var w := LastN(x, n);
    if |x| > n {
      var a, b := LastN(w + y, n), LastN(x + y, n);
      assert |a| == |b|;
      forall i | 0 <= i < |a|
        ensures a[i] == b[i]
      {
        var off := |w + y| - |a|;
        assert a[i] == (w + y)[off + i];
        assert b[i] == (x + y)[|x + y| - |b| + i];
        if off + i < |w| {
          assert (w + y)[off + i] == x[|x| - n + off + i];
        } else {
          assert (w + y)[off + i] == y[off + i - |w|];
        }
      }
    }
  }
}
