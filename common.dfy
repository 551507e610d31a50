/** Vocabulary shared by every layer of the codec pipeline: bits, the errors the
    pipeline raises, Python's list slicing, and the framing patterns. */
module Common {

  /** One binary digit, as the link layer's lists of 0/1 integers hold it. */
  type Bit = b: int | 0 <= b <= 1

  /** One octet, as `bytes` objects hold it. */
  type Byte = b: int | 0 <= b < 256

  /** The exceptions the pipeline can raise. The text of the messages is not
      modelled: every failed check is one `TransmissionError`. */
  datatype Error =
    | TransmissionError   // a parity, CRC, flag or count check failed
    | IndexError          // a list was indexed past its end
    | ValueError          // `int(...)` of a malformed string, `ValueError(...)` raised explicitly
    | UnboundLocalError   // a local variable read before any assignment
    | UnicodeDecodeError  // bytes that are not text

  /** The outcome of an operation that may raise. */
  datatype Result<+T> = Ok(value: T) | Err(error: Error) {
    predicate IsFailure() { Err? }
    function PropagateFailure<U>(): Result<U>
      requires Err?
    {
      Err(error)
    }
    function Extract(): T
      requires Ok?
    {
      value
    }
  }

  /** A value that may be absent, such as a local variable not yet bound. */
  datatype Option<+T> = None | Some(value: T)

  function Min(a: int, b: int): int { if a <= b then a else b }
  function Max(a: int, b: int): int { if a <= b then b else a }

  /** Python's `s[i:j]` for non-negative bounds: both are clamped to the length,
      and a slice whose end is not past its start is empty. */
  function Slice<T>(s: seq<T>, i: nat, j: nat): (r: seq<T>)
    ensures |r| == if i < j && i < |s| then Min(j, |s|) - i else 0
    ensures forall k :: 0 <= k < |r| ==> r[k] == s[i + k]
  {
    if i < j && i < |s| then s[i..Min(j, |s|)] else []
  }

  /** Python's `s[i:i+k]`: the window of (at most) k elements that starts at i. */
  function Window<T>(s: seq<T>, i: nat, k: nat): (r: seq<T>)
    requires k > 0
    ensures i + k <= |s| ==> r == s[i..i + k]
    ensures |s| < i + k ==> |r| < k
  {
    Slice(s, i, i + k)
  }

  /** Python's `s[-k:]` for k > 0: the last k elements, or all of a shorter list. */
  function LastN<T>(s: seq<T>, k: nat): seq<T>
  {
    s[Max(0, |s| - k)..]
  }

  /** Python's `s[:-k]` for k > 0: everything but the last k elements. */
  function DropLast<T>(s: seq<T>, k: nat): seq<T>
  {
    s[..Max(0, |s| - k)]
  }

  /** Python's `sum`. */
  function Sum(s: seq<int>): int
  {
    if s == [] then 0 else Sum(s[..|s| - 1]) + s[|s| - 1]
  }

  lemma {:induction false} SumAppend(a: seq<int>, b: seq<int>)
    ensures Sum(a + b) == Sum(a) + Sum(b)
    decreases |b|
  {
    if b == [] {
      assert a + b == a;
    } else {
      assert (a + b)[..|a + b| - 1] == a + b[..|b| - 1];
      SumAppend(a, b[..|b| - 1]);
    }
  }

  /** Python's `^` on two bits. */
  function Xor(a: Bit, b: Bit): Bit { if a == b then 0 else 1 }

  /** The bit sequence with its k-th bit inverted: one channel error. */
  function Flip(s: seq<Bit>, k: nat): (r: seq<Bit>)
    requires k < |s|
    ensures |r| == |s| && r[k] != s[k]
    ensures forall j :: 0 <= j < |s| && j != k ==> r[j] == s[j]
  {
    s[k := 1 - s[k]]
  }

  /** The frame delimiter `01111110` of both stuffing framers. */
  const Flag: seq<Bit> := [0, 1, 1, 1, 1, 1, 1, 0]

  /** The escape byte `01111011` of byte stuffing. */
  const Escape: seq<Bit> := [0, 1, 1, 1, 1, 0, 1, 1]

  /** The flag with a 0 inserted before its last bit, `011111010`, which bit
      stuffing writes in place of a flag inside the payload. */
  const StuffedFlag: seq<Bit> := [0, 1, 1, 1, 1, 1, 0, 1, 0]

  /** A Python list object: callers and callees that hold it see each other's
      appends and element assignments. */
  class MutableList<T> {
    var items: seq<T>

    constructor (s: seq<T>)
      ensures items == s
    {
      items := s;
    }
  }
}
