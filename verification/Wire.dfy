/**
  Bytes on the wire: octets, big-endian 16-bit words, and the bounds-checked
  reads and writes every packet operation is built from.
*/
module Wire {

  type byte = b: int | 0 <= b < 0x100
  type word = w: int | 0 <= w < 0x1_0000
  type Bytes = seq<byte>

  type Mac = m: Bytes | |m| == 6 witness [0, 0, 0, 0, 0, 0]
  type Address = a: Bytes | |a| == 16 witness [0, 0, 0, 0, 0, 0, 0, 0, 0, 0, 0, 0, 0, 0, 0, 0]

  /** The two error codes the packet editor returns. */
  datatype Errno = EBADMSG | EPROTONOSUPPORT

  datatype Option<+T> = None | Some(value: T) {
    predicate IsFailure() { None? }
    function PropagateFailure<U>(): Option<U> requires None? { None }
    function Extract(): T requires Some? { value }
  }

  datatype Result<+T> = Ok(value: T) | Err(code: Errno) {
    predicate IsFailure() { Err? }
    function PropagateFailure<U>(): Result<U> requires Err? { Err(code) }
    function Extract(): T requires Ok? { value }
  }

  function Word(high: byte, low: byte): (w: word) {
    high * 0x100 + low
  }

  function Octets(w: word): (b: Bytes)
    ensures |b| == 2 && Word(b[0], b[1]) == w
  {
    [w / 0x100, w % 0x100]
  }

  lemma OctetsOfWord(high: byte, low: byte)
    ensures Octets(Word(high, low)) == [high, low]
  {
  }

  function ReadRange(bytes: Bytes, offset: nat, length: nat): (r: Option<Bytes>)
    ensures r.Some? <==> offset + length <= |bytes|
    ensures r.Some? ==> r.value == bytes[offset..offset + length]
  {
    if offset + length <= |bytes| then Some(bytes[offset..offset + length]) else None
  }

  function ReadWord(bytes: Bytes, offset: nat): (r: Option<word>)
    ensures r.Some? <==> offset + 2 <= |bytes|
    ensures r.Some? ==> r.value == Word(bytes[offset], bytes[offset + 1])
  {
    if offset + 2 <= |bytes| then Some(Word(bytes[offset], bytes[offset + 1])) else None
  }

  /** A write inside the frame changes exactly the named octets; any other write is refused. */
  function Write(frame: Bytes, offset: nat, bytes: Bytes): (r: Result<Bytes>)
    ensures r.Ok? <==> offset + |bytes| <= |frame|
    ensures r.Err? ==> r.code == EBADMSG
    ensures r.Ok? ==> |r.value| == |frame|
    ensures r.Ok? ==> forall i :: 0 <= i < |frame| ==>
                        r.value[i] == if offset <= i < offset + |bytes| then bytes[i - offset] else frame[i]
  {
    if offset + |bytes| <= |frame| then
      Ok(frame[..offset] + bytes + frame[offset + |bytes|..])
    else
      Err(EBADMSG)
  }

  /** Writing in place refines Write. */
  method WriteInPlace(frame: array<byte>, offset: nat, bytes: Bytes) returns (r: Result<()>)
    modifies frame
    ensures r.Ok? <==> offset + |bytes| <= frame.Length
    ensures r.Ok? ==> Write(old(frame[..]), offset, bytes) == Ok(frame[..])
    ensures r.Err? ==> r.code == EBADMSG && frame[..] == old(frame[..])
  {
    if offset + |bytes| > frame.Length {
      return Err(EBADMSG);
    }
    forall i | 0 <= i < |bytes| {
      frame[offset + i] := bytes[i];
    }
    assert frame[..] == Write(old(frame[..]), offset, bytes).value;
    return Ok(());
  }

  lemma SubSlice(b: Bytes, start: nat, i: nat, j: nat)
    requires start <= |b| && i <= j <= |b| - start
    ensures b[start..][i..j] == b[start + i..start + j]
  {
  }

  lemma Inside(a: Bytes, b: Bytes, c: Bytes, i: nat, j: nat)
    requires i <= j <= |b|
    ensures (a + b + c)[|a| + i..|a| + j] == b[i..j]
  {
    var all := a + b + c;
    forall k | i <= k < j ensures all[|a| + k] == b[k] {
      assert (a + b)[|a| + k] == b[k];
    }
  }

  lemma CutSlice(b: Bytes, k: nat, i: nat, j: nat)
    requires i <= j <= k <= |b|
    ensures b[..k][i..j] == b[i..j]
  {
  }
}
