/**
 * The signature bundle read by `PmsHookApplication.hook`: one count byte,
 * then `count` entries, each a 4-byte big-endian signed length followed by
 * that many raw bytes. `DataInput` is the `DataInputStream` over a
 * `ByteArrayInputStream` the source reads from, `DecodeBundle` the loop that
 * reads it, and `Decode` the function that loop is proved against.
 */
module SignatureBundle {
  import opened Wrappers

  newtype byte = x: int | 0 <= x < 0x100

  /** One raw certificate, as given to `Signature(ByteArray)`. */
  type Blob = seq<byte>

  /** The two exceptions decoding can raise. */
  datatype DecodeError =
    | EndOfStream        // EOFException from readInt or readFully
    | NegativeArraySize  // NegativeArraySizeException from ByteArray(length)

  /** `DataInputStream.readInt`: four bytes, big-endian, two's complement. */
  function Int32BE(b0: byte, b1: byte, b2: byte, b3: byte): (n: int)
    ensures -0x8000_0000 <= n < 0x8000_0000
    ensures n < 0 <==> b0 >= 0x80
  {
    var u := ((b0 as int * 0x100 + b1 as int) * 0x100 + b2 as int) * 0x100 + b3 as int;
    if u >= 0x8000_0000 then u - 0x1_0000_0000 else u
  }

  /** What the first `read()` returns: the byte, or -1 at end of stream. */
  function FirstRead(s: seq<byte>): (r: int)
    ensures LowByte(r) == if |s| == 0 then 0xFF else s[0] as int
  {
    if |s| == 0 then -1 else s[0] as int
  }

  /**
   * `x and 0xFF`. For every `Int` the two's-complement AND with 0xFF is the
   * Euclidean remainder modulo 256, which is what Dafny's `%` computes.
   */
  function LowByte(x: int): (r: nat)
    ensures r < 0x100
    ensures 0 <= x < 0x100 ==> r == x
    ensures x == -1 ==> r == 0xFF
  {
    x % 0x100
  }

  /** The bytes left after the first `read()`, which does not advance at end of stream. */
  function AfterCount(s: seq<byte>): (r: seq<byte>)
    ensures FirstRead(s) == -1 ==> r == s
    ensures FirstRead(s) != -1 ==> 0 <= FirstRead(s) < 0x100 && s == [FirstRead(s) as byte] + r
  {
    if |s| == 0 then s else s[1..]
  }

  /** Appends the blobs already read in front of the outcome of reading the rest. */
  function Prepend(front: seq<Blob>, r: Result<seq<Blob>, DecodeError>): Result<seq<Blob>, DecodeError> {
    match r
    case Success(rest) => Success(front + rest)
    case Failure(e) => Failure(e)
  }

  /** One entry read off the front of the stream, and the bytes after it. */
  datatype Entry = Entry(blob: Blob, rest: seq<byte>)

  /** `ByteArray(readInt()).also { readFully(it) }`: one length-prefixed entry. */
  function ReadEntry(s: seq<byte>): (r: Result<Entry, DecodeError>)
    ensures r.Success? ==> |r.value.blob| + 4 + |r.value.rest| == |s|
  {
    if |s| < 4 then Failure(EndOfStream)
    else
      var len := Int32BE(s[0], s[1], s[2], s[3]);
      if len < 0 then Failure(NegativeArraySize)
      else if |s| - 4 < len then Failure(EndOfStream)
      else Success(Entry(s[4..4 + len], s[4 + len..]))
  }

  /** Reads `n` entries in turn, as the `Array(signatureCount)` initializer does. */
  function ReadEntries(s: seq<byte>, n: nat): (r: Result<seq<Blob>, DecodeError>)
    ensures r.Success? ==> |r.value| == n
    decreases n
  {
    if n == 0 then Success([])
    else
      match ReadEntry(s)
      case Failure(e) => Failure(e)
      case Success(Entry(b, t)) => Prepend([b], ReadEntries(t, n - 1))
  }

  /**
   * The bytes left once `n` entries have been read off `s`. After a failure
   * the value is `[]`, a placeholder: the loop returns at once and never
   * reads the stream again, so what a failed read leaves is not modelled.
   */
  function RestAfter(s: seq<byte>, n: nat): seq<byte>
    decreases n
  {
    if n == 0 then s
    else
      match ReadEntry(s)
      case Failure(_) => []
      case Success(Entry(_, t)) => RestAfter(t, n - 1)
  }

  /** The whole decoder (lines 33-41): the count byte, then that many entries; trailing bytes are never looked at. */
  function Decode(s: seq<byte>): (r: Result<seq<Blob>, DecodeError>)
    ensures |s| == 0 ==> r == Failure(EndOfStream)
    ensures r.Success? ==> |s| > 0 && |r.value| == s[0] as int
  {
    ReadEntries(AfterCount(s), LowByte(FirstRead(s)))
  }

  /**
   * A `DataInputStream` reading a byte array. The stream's position is kept
   * as the bytes not read yet: reading moves it forward by dropping bytes
   * off the front.
   */
  class DataInput {
    var remaining: seq<byte>

    constructor (bytes: seq<byte>)
      ensures remaining == bytes
    {
      remaining := bytes;
    }

    /** `read()`: the next byte as 0..255, or -1 (and no move) at end of stream. */
    method Read() returns (b: int)
      modifies this
      ensures b == FirstRead(old(remaining))
      ensures remaining == AfterCount(old(remaining))
    {
      if |remaining| > 0 {
        b := remaining[0] as int;
        remaining := remaining[1..];
      } else {
        b := -1;
      }
    }

    /** `readInt()`: four `read()`s; any of them at end of stream is an EOFException. */
    method ReadInt() returns (r: Result<int, DecodeError>)
      modifies this
      ensures var s := old(remaining);
        if |s| < 4 then r == Failure(EndOfStream) && remaining == []
        else r == Success(Int32BE(s[0], s[1], s[2], s[3])) && remaining == s[4..]
    {
      ghost var s := remaining;
      var ch1 := Read();
      var ch2 := Read();
      var ch3 := Read();
      var ch4 := Read();
      if ch1 < 0 || ch2 < 0 || ch3 < 0 || ch4 < 0 {
        r := Failure(EndOfStream);
      } else {
        r := Success(Int32BE(ch1 as byte, ch2 as byte, ch3 as byte, ch4 as byte));
      }
    }

    /** `readFully(ByteArray(n))`: exactly `n` bytes, or an EOFException once the stream runs dry. */
    method ReadFully(n: nat) returns (r: Result<Blob, DecodeError>)
      modifies this
      ensures var s := old(remaining);
        if |s| < n then r == Failure(EndOfStream) && remaining == []
        else r == Success(s[..n]) && remaining == s[n..]
    {
      if |remaining| < n {
        remaining := [];
        r := Failure(EndOfStream);
      } else {
        r := Success(remaining[..n]);
        remaining := remaining[n..];
      }
    }
  }

  /** What `readInt` and `readFully` leave behind is one entry of `ReadEntry`. */
  lemma ReadEntryByCursor(s: seq<byte>, len: int, blob: Blob, after: seq<byte>)
    requires |s| >= 4 && len == Int32BE(s[0], s[1], s[2], s[3]) && len >= 0
    requires |s[4..]| >= len && blob == s[4..][..len] && after == s[4..][len..]
    ensures ReadEntry(s) == Success(Entry(blob, after))
  {
    assert blob == s[4..4 + len];
    assert after == s[4 + len..];
  }

  /** Lines 37-39: `ByteArray(readInt()).also { readFully(it) }`, one entry off the cursor. */
  method ReadSignature(input: DataInput) returns (r: Result<Blob, DecodeError>)
    modifies input
    ensures var e := ReadEntry(old(input.remaining));
      if e.Failure? then r == Failure(e.error)
      else r == Success(e.value.blob) && input.remaining == e.value.rest
  {
    ghost var s := input.remaining;
    var len := input.ReadInt();
    if len.Failure? {
      return Failure(len.error);
    }
    if len.value < 0 {
      return Failure(NegativeArraySize);
    }
    var blob := input.ReadFully(len.value);
    if blob.Failure? {
      return Failure(blob.error);
    }
    ReadEntryByCursor(s, len.value, blob.value, input.remaining);
    r := blob;
  }

  /** One more entry read: the decoded outcome is unchanged, with that blob moved to the front part. */
  lemma DecodeStep(target: Result<seq<Blob>, DecodeError>, blobs: seq<Blob>, rest: seq<byte>, n: nat,
                   r: Result<Blob, DecodeError>, after: seq<byte>)
    requires n > 0 && target == Prepend(blobs, ReadEntries(rest, n))
    requires var e := ReadEntry(rest);
      if e.Failure? then r == Failure(e.error)
      else r == Success(e.value.blob) && after == e.value.rest
    ensures r.Failure? ==> target == Failure(r.error)
    ensures r.Success? ==> target == Prepend(blobs + [r.value], ReadEntries(after, n - 1))
  {
    if r.Success? {
      ReadEntriesCons(rest, n);
      PrependAssoc(blobs, [r.value], ReadEntries(after, n - 1));
    }
  }

  /** Once every entry has been read, the decoded outcome is the blobs read. */
  lemma DecodeDone(target: Result<seq<Blob>, DecodeError>, blobs: seq<Blob>, rest: seq<byte>)
    requires target == Prepend(blobs, ReadEntries(rest, 0))
    ensures target == Success(blobs)
  {
    assert blobs + [] == blobs;
  }

  /** Lines 36-40: the `Array(signatureCount)` initializer, reading `count` entries off the cursor in turn. */
  method ReadSignatures(input: DataInput, count: nat) returns (r: Result<seq<Blob>, DecodeError>)
    modifies input
    ensures r == ReadEntries(old(input.remaining), count)
    ensures r.Success? ==>
      EntriesEncodable(r.value) && old(input.remaining) == EncodeEntries(r.value) + input.remaining
  {
    ghost var start := input.remaining;
    ghost var target := ReadEntries(start, count);
    PrependEmpty(target);
    var blobs: seq<Blob> := [];
    var left := count;
    while left > 0
      invariant target == Prepend(blobs, ReadEntries(input.remaining, left))
      invariant RestAfter(start, count) == RestAfter(input.remaining, left)
      decreases left
    {
      ghost var rest := input.remaining;
      var blob := ReadSignature(input);
      DecodeStep(target, blobs, rest, left, blob, input.remaining);
      if blob.Failure? {
        return Failure(blob.error);
      }
      blobs, left := blobs + [blob.value], left - 1;
    }
    DecodeDone(target, blobs, input.remaining);
    ReadEntriesRest(start, count);
    r := Success(blobs);
  }

  /** Lines 33-41: the stream over the decoded bytes, the count byte, then the entries. */
  method DecodeBundle(raw: seq<byte>) returns (r: Result<seq<Blob>, DecodeError>)
    ensures r == Decode(raw)
  {
    var input := new DataInput(raw);
    var first := input.Read();
    r := ReadSignatures(input, LowByte(first));
  }

  // ---------------------------------------------------------------------
  // A proof-only encoder of the same framing (the source has none).

  /** Blobs the framing can carry: at most 255 of them, each shorter than 2^31 bytes. */
  ghost predicate EntriesEncodable(blobs: seq<Blob>) {
    forall i :: 0 <= i < |blobs| ==> |blobs[i]| < 0x8000_0000
  }

  ghost predicate Encodable(blobs: seq<Blob>) {
    |blobs| < 0x100 && EntriesEncodable(blobs)
  }

  /**
   * A length as the four bytes `readInt` reads back as that length. They are
   * unique (`Int32BEInjective`): the big-endian bytes of `n`.
   */
  ghost function LengthBytes(n: nat): (b: seq<byte>)
    requires n < 0x8000_0000
    ensures |b| == 4 && b[0] < 0x80 && Int32BE(b[0], b[1], b[2], b[3]) == n
  {
    BigEndianValue(n);
    var b0, b1, b2, b3 :| Int32BE(b0, b1, b2, b3) == n;
    [b0, b1, b2, b3]
  }

  ghost function EncodeEntries(blobs: seq<Blob>): seq<byte>
    requires EntriesEncodable(blobs)
    decreases |blobs|
  {
    if blobs == [] then [] else LengthBytes(|blobs[0]|) + blobs[0] + EncodeEntries(blobs[1..])
  }

  ghost function Encode(blobs: seq<Blob>): seq<byte>
    requires Encodable(blobs)
  {
    [|blobs| as byte] + EncodeEntries(blobs)
  }

  /** The big-endian bytes of `n`, by division, are read back as `n`. */
  lemma BigEndianValue(n: nat)
    requires n < 0x8000_0000
    ensures exists b0: byte, b1: byte, b2: byte, b3: byte :: Int32BE(b0, b1, b2, b3) == n
  {
    var a0, a1, a2, a3 := n / 0x100_0000, n / 0x1_0000 % 0x100, n / 0x100 % 0x100, n % 0x100;
    assert n / 0x1_0000 == a0 * 0x100 + a1;
    assert n / 0x100 == (a0 * 0x100 + a1) * 0x100 + a2;
    assert n == ((a0 * 0x100 + a1) * 0x100 + a2) * 0x100 + a3;
    assert Int32BE(a0 as byte, a1 as byte, a2 as byte, a3 as byte) == n;
  }

  /** Different byte quadruples with the top bit clear are different lengths. */
  lemma Int32BEInjective(a0: byte, a1: byte, a2: byte, a3: byte, c0: byte, c1: byte, c2: byte, c3: byte)
    requires a0 < 0x80 && c0 < 0x80
    requires Int32BE(a0, a1, a2, a3) == Int32BE(c0, c1, c2, c3)
    ensures a0 == c0 && a1 == c1 && a2 == c2 && a3 == c3
  {
    var n := Int32BE(a0, a1, a2, a3);
    var x2 := (a0 as int * 0x100 + a1 as int) * 0x100 + a2 as int;
    var y2 := (c0 as int * 0x100 + c1 as int) * 0x100 + c2 as int;
    assert n == x2 * 0x100 + a3 as int == y2 * 0x100 + c3 as int;
    assert x2 == y2 && a3 == c3;
    assert a0 as int * 0x100 + a1 as int == c0 as int * 0x100 + c1 as int;
    assert a2 == c2;
  }

  /** A non-negative big-endian length re-encodes to the same four bytes. */
  lemma LengthBytesInverse(b0: byte, b1: byte, b2: byte, b3: byte)
    requires b0 < 0x80
    ensures LengthBytes(Int32BE(b0, b1, b2, b3)) == [b0, b1, b2, b3]
  {
    var c := LengthBytes(Int32BE(b0, b1, b2, b3));
    Int32BEInjective(b0, b1, b2, b3, c[0], c[1], c[2], c[3]);
  }

  lemma PrependAssoc(a: seq<Blob>, b: seq<Blob>, r: Result<seq<Blob>, DecodeError>)
    ensures Prepend(a, Prepend(b, r)) == Prepend(a + b, r)
  {
    if r.Success? {
      assert a + (b + r.value) == (a + b) + r.value;
    }
  }

  lemma PrependEmpty(r: Result<seq<Blob>, DecodeError>)
    ensures Prepend([], r) == r
  {
    if r.Success? {
      assert [] + r.value == r.value;
    }
  }

  lemma EntriesEncodableTail(blobs: seq<Blob>)
    requires EntriesEncodable(blobs) && blobs != []
    ensures EntriesEncodable(blobs[1..])
  {
    forall i | 0 <= i < |blobs| - 1 ensures |blobs[1..][i]| < 0x8000_0000 {
      assert blobs[1..][i] == blobs[i + 1];
    }
  }

  /** The framing of one blob reads back as that blob, followed by whatever came after it. */
  lemma ReadFramedEntry(b: Blob, tail: seq<byte>)
    requires |b| < 0x8000_0000
    ensures ReadEntry(LengthBytes(|b|) + b + tail) == Success(Entry(b, tail))
  {
    var s := LengthBytes(|b|) + b + tail;
    assert s[4..4 + |b|] == b;
    assert s[4 + |b|..] == tail;
  }

  /** Every entry that reads successfully is the framing of its blob, followed by the rest. */
  lemma ReadEntryFramed(s: seq<byte>)
    requires ReadEntry(s).Success?
    ensures var e := ReadEntry(s).value;
      |e.blob| < 0x8000_0000 && s == LengthBytes(|e.blob|) + e.blob + e.rest
  {
    var e := ReadEntry(s).value;
    LengthBytesInverse(s[0], s[1], s[2], s[3]);
    assert s == s[..4] + e.blob + e.rest;
  }

  /** A strict prefix of one framed entry ends the stream. */
  lemma ReadEntryTruncated(b: Blob, k: nat)
    requires |b| < 0x8000_0000 && k < 4 + |b|
    ensures ReadEntry((LengthBytes(|b|) + b)[..k]) == Failure(EndOfStream)
  {
    if k >= 4 {
      var t := (LengthBytes(|b|) + b)[..k];
      assert t[..4] == LengthBytes(|b|);
    }
  }

  /** Reading a positive number of entries reads one entry, then the others after it. */
  lemma ReadEntriesCons(s: seq<byte>, n: nat)
    requires n > 0 && ReadEntry(s).Success?
    ensures ReadEntries(s, n) == Prepend([ReadEntry(s).value.blob], ReadEntries(ReadEntry(s).value.rest, n - 1))
  {
  }

  /**
   * Reading `n` entries from the framing of `blobs` followed by `tail` reads
   * those blobs, in order, and then goes on reading from `tail`.
   */
  lemma {:induction false} ReadEntriesFramed(blobs: seq<Blob>, tail: seq<byte>, n: nat, m: nat)
    requires EntriesEncodable(blobs) && n == |blobs| + m
    ensures ReadEntries(EncodeEntries(blobs) + tail, n) == Prepend(blobs, ReadEntries(tail, m))
    decreases |blobs|
  {
    if blobs == [] {
      ReadEntriesFramedNil(blobs, tail, n, m);
    } else {
      EntriesEncodableTail(blobs);
      ReadEntriesFramed(blobs[1..], tail, n - 1, m);
      ReadEntriesFramedCons(blobs, tail, n, m);
    }
  }

  /** The base case of `ReadEntriesFramed`: no blobs, so the input is just `tail`. */
  lemma ReadEntriesFramedNil(blobs: seq<Blob>, tail: seq<byte>, n: nat, m: nat)
    requires EntriesEncodable(blobs) && n == |blobs| + m && blobs == []
    ensures ReadEntries(EncodeEntries(blobs) + tail, n) == Prepend(blobs, ReadEntries(tail, m))
  {
    assert EncodeEntries(blobs) + tail == tail;
    assert n == m;
    PrependEmpty(ReadEntries(tail, m));
  }

  /** The step of `ReadEntriesFramed`: one blob in front of a list for which it holds. */
  lemma ReadEntriesFramedCons(blobs: seq<Blob>, tail: seq<byte>, n: nat, m: nat)
    requires EntriesEncodable(blobs) && n == |blobs| + m && blobs != []
    requires EntriesEncodable(blobs[1..])
    requires ReadEntries(EncodeEntries(blobs[1..]) + tail, n - 1) == Prepend(blobs[1..], ReadEntries(tail, m))
    ensures ReadEntries(EncodeEntries(blobs) + tail, n) == Prepend(blobs, ReadEntries(tail, m))
  {
    ReadFramedFirst(blobs, tail, n);
    PrependChain(blobs, ReadEntries(EncodeEntries(blobs) + tail, n),
                 ReadEntries(EncodeEntries(blobs[1..]) + tail, n - 1), ReadEntries(tail, m));
  }

  /** The first framed blob reads back off the front, the others after it. */
  lemma ReadFramedFirst(blobs: seq<Blob>, tail: seq<byte>, n: nat)
    requires EntriesEncodable(blobs) && blobs != [] && n > 0
    ensures EntriesEncodable(blobs[1..])
    ensures ReadEntries(EncodeEntries(blobs) + tail, n)
         == Prepend([blobs[0]], ReadEntries(EncodeEntries(blobs[1..]) + tail, n - 1))
  {
    var b := blobs[0];
    EncodeEntriesCons(blobs);
    var u := EncodeEntries(blobs[1..]) + tail;
    ConcatAssoc(LengthBytes(|b|) + b, EncodeEntries(blobs[1..]), tail);
    ReadFramedEntry(b, u);
    ReadEntriesCons(EncodeEntries(blobs) + tail, n);
  }

  /** Prepending the first blob, then the others, prepends the whole list. */
  lemma PrependChain(blobs: seq<Blob>, x: Result<seq<Blob>, DecodeError>, y: Result<seq<Blob>, DecodeError>,
                     z: Result<seq<Blob>, DecodeError>)
    requires blobs != [] && x == Prepend([blobs[0]], y) && y == Prepend(blobs[1..], z)
    ensures x == Prepend(blobs, z)
  {
    PrependAssoc([blobs[0]], blobs[1..], z);
    assert [blobs[0]] + blobs[1..] == blobs;
  }

  /**
   * A successful read of `n` entries consumes exactly the framing of the
   * blobs it yields, and leaves the bytes after them unread.
   */
  lemma {:induction false} ReadEntriesRest(s: seq<byte>, n: nat)
    requires ReadEntries(s, n).Success?
    ensures EntriesEncodable(ReadEntries(s, n).value)
    ensures s == EncodeEntries(ReadEntries(s, n).value) + RestAfter(s, n)
    decreases n
  {
    if n == 0 {
      ReadEntriesRestNil(s, n);
    } else {
      ReadEntriesRest(ReadEntry(s).value.rest, n - 1);
      ReadEntriesRestCons(s, n);
    }
  }

  /** The base case of `ReadEntriesRest`: nothing read, nothing consumed. */
  lemma ReadEntriesRestNil(s: seq<byte>, n: nat)
    requires n == 0
    ensures ReadEntries(s, n).Success? && EntriesEncodable(ReadEntries(s, n).value)
    ensures s == EncodeEntries(ReadEntries(s, n).value) + RestAfter(s, n)
  {
    assert ReadEntries(s, n).value == [];
    assert [] + s == s;
  }

  /** The step of `ReadEntriesRest`: the first entry's framing, then the rest. */
  lemma ReadEntriesRestCons(s: seq<byte>, n: nat)
    requires n > 0 && ReadEntries(s, n).Success?
    requires ReadEntries(ReadEntry(s).value.rest, n - 1).Success?
    requires var t := ReadEntry(s).value.rest;
      EntriesEncodable(ReadEntries(t, n - 1).value)
      && t == EncodeEntries(ReadEntries(t, n - 1).value) + RestAfter(t, n - 1)
    ensures EntriesEncodable(ReadEntries(s, n).value)
    ensures s == EncodeEntries(ReadEntries(s, n).value) + RestAfter(s, n)
  {
    var e := ReadEntry(s).value;
    var more := ReadEntries(e.rest, n - 1).value;
    ReadEntriesCons(s, n);
    assert ReadEntries(s, n).value == [e.blob] + more;
    ReadEntryFramed(s);
    EntriesEncodableCons(e.blob, more);
    ConcatAssoc(LengthBytes(|e.blob|) + e.blob, EncodeEntries(more), RestAfter(e.rest, n - 1));
  }

  /** A prefix followed by the rest is the whole sequence. */
  lemma PrefixSplit(p: seq<byte>, s: seq<byte>)
    requires p <= s
    ensures s == p + s[|p|..]
  {
  }

  /** Round trip, with any trailing bytes: decoding the framing of `blobs` gives `blobs` back. */
  lemma DecodeEncode(blobs: seq<Blob>, trailing: seq<byte>)
    requires Encodable(blobs)
    ensures Decode(Encode(blobs) + trailing) == Success(blobs)
  {
    var c := |blobs| as byte;
    ConcatAssoc([c], EncodeEntries(blobs), trailing);
    DecodeCons(c, EncodeEntries(blobs) + trailing);
    ReadEntriesFramed(blobs, trailing, |blobs|, 0);
    assert blobs + [] == blobs;
  }

  /** The first entry and the rest of a non-empty list of framed blobs. */
  lemma EncodeEntriesCons(blobs: seq<Blob>)
    requires EntriesEncodable(blobs) && blobs != []
    ensures EntriesEncodable(blobs[1..])
    ensures EncodeEntries(blobs) == LengthBytes(|blobs[0]|) + blobs[0] + EncodeEntries(blobs[1..])
  {
    EntriesEncodableTail(blobs);
  }

  /** Putting a blob in front of framed blobs frames the longer list. */
  lemma EntriesEncodableCons(b: Blob, rest: seq<Blob>)
    requires |b| < 0x8000_0000 && EntriesEncodable(rest)
    ensures EntriesEncodable([b] + rest)
    ensures EncodeEntries([b] + rest) == LengthBytes(|b|) + b + EncodeEntries(rest)
  {
    var blobs := [b] + rest;
    forall i | 0 <= i < |blobs| ensures |blobs[i]| < 0x8000_0000 {
      if i > 0 { assert blobs[i] == rest[i - 1]; }
    }
    assert blobs[1..] == rest;
  }

  /** `p + q` is a prefix of `s` when `p` is and `q` is a prefix of what follows `p`. */
  lemma PrefixConcat(p: seq<byte>, q: seq<byte>, s: seq<byte>)
    requires p <= s && q <= s[|p|..]
    ensures p + q <= s
  {
    assert (p + q) == s[..|p| + |q|];
  }

  /** What a successful read of entries returns is framed at the front of the input. */
  lemma {:induction false} ReadEntriesSound(s: seq<byte>, n: nat)
    requires ReadEntries(s, n).Success?
    ensures var blobs := ReadEntries(s, n).value;
      EntriesEncodable(blobs) && EncodeEntries(blobs) <= s
    decreases n
  {
    var blobs := ReadEntries(s, n).value;
    if n == 0 {
      assert blobs == [];
    } else {
      var e := ReadEntry(s).value;
      ReadEntryFramed(s);
      var rest := ReadEntries(e.rest, n - 1).value;
      assert blobs == [e.blob] + rest;
      ReadEntriesSound(e.rest, n - 1);
      EntriesEncodableCons(e.blob, rest);
      var head := LengthBytes(|e.blob|) + e.blob;
      assert s == head + e.rest;
      assert s[|head|..] == e.rest;
      PrefixConcat(head, EncodeEntries(rest), s);
    }
  }

  /** Reading entries succeeds exactly when the front of the input is the framing of `n` blobs, which it returns. */
  lemma ReadEntriesSuccess(s: seq<byte>, n: nat, blobs: seq<Blob>)
    ensures ReadEntries(s, n) == Success(blobs) <==>
      |blobs| == n && EntriesEncodable(blobs) && EncodeEntries(blobs) <= s
  {
    if |blobs| == n && EntriesEncodable(blobs) && EncodeEntries(blobs) <= s {
      var e := EncodeEntries(blobs);
      PrefixSplit(e, s);
      ReadEntriesFramed(blobs, s[|e|..], n, 0);
      assert blobs + [] == blobs;
    }
    if ReadEntries(s, n) == Success(blobs) {
      ReadEntriesSound(s, n);
    }
  }

  /**
   * Decoding succeeds exactly when the input starts with the framing of the
   * blobs it returns; what comes after that framing is ignored.
   */
  lemma DecodeSuccess(s: seq<byte>, blobs: seq<Blob>)
    ensures Decode(s) == Success(blobs) <==> Encodable(blobs) && Encode(blobs) <= s
  {
    if |s| > 0 {
      ReadEntriesSuccess(s[1..], s[0] as int, blobs);
      if Encodable(blobs) && Encode(blobs) <= s {
        assert s[1..][..|EncodeEntries(blobs)|] == Encode(blobs)[1..];
      }
      if Decode(s) == Success(blobs) {
        assert Encode(blobs) == [s[0]] + EncodeEntries(blobs);
      }
    }
  }

  /** Bytes after a successfully decoded bundle change nothing. */
  lemma DecodeIgnoresTrailing(s: seq<byte>, trailing: seq<byte>)
    requires Decode(s).Success?
    ensures Decode(s + trailing) == Decode(s)
  {
    var blobs := Decode(s).value;
    DecodeSuccess(s, blobs);
    DecodeSuccess(s + trailing, blobs);
    assert Encode(blobs) <= s + trailing;
  }

  /** Every strict prefix of well-framed entries ends the stream before `|blobs|` entries are read. */
  lemma {:induction false} ReadEntriesTruncated(blobs: seq<Blob>, k: nat)
    requires EntriesEncodable(blobs) && k < |EncodeEntries(blobs)|
    ensures ReadEntries(EncodeEntries(blobs)[..k], |blobs|) == Failure(EndOfStream)
    decreases |blobs|
  {
    var b, rest := blobs[0], blobs[1..];
    EntriesEncodableTail(blobs);
    var head := LengthBytes(|b|) + b;
    assert EncodeEntries(blobs) == head + EncodeEntries(rest);
    if k < |head| {
      assert EncodeEntries(blobs)[..k] == head[..k];
      ReadEntryTruncated(b, k);
    } else {
      var t := EncodeEntries(rest)[..k - |head|];
      assert EncodeEntries(blobs)[..k] == LengthBytes(|b|) + b + t;
      ReadFramedEntry(b, t);
      ReadEntriesTruncated(rest, k - |head|);
    }
  }

  /** Cutting a well-framed bundle short anywhere makes decoding fail at end of stream. */
  lemma DecodeTruncated(blobs: seq<Blob>, k: nat)
    requires Encodable(blobs) && k < |Encode(blobs)|
    ensures Decode(Encode(blobs)[..k]) == Failure(EndOfStream)
  {
    if k > 0 {
      var s := Encode(blobs)[..k];
      assert AfterCount(s) == EncodeEntries(blobs)[..k - 1];
      ReadEntriesTruncated(blobs, k - 1);
    }
  }

  /** A count byte larger than the number of entries present makes decoding fail at end of stream. */
  lemma DecodeMissingEntries(blobs: seq<Blob>, count: nat)
    requires EntriesEncodable(blobs) && |blobs| < count < 0x100
    ensures Decode([count as byte] + EncodeEntries(blobs)) == Failure(EndOfStream)
  {
    assert EncodeEntries(blobs) + [] == EncodeEntries(blobs);
    DecodeCons(count as byte, EncodeEntries(blobs));
    ReadEntriesFramed(blobs, [], count, count - |blobs|);
  }

  /** A length with its top bit set makes `ByteArray(length)` throw, whatever follows it. */
  lemma ReadEntryNegative(length: seq<byte>, trailing: seq<byte>)
    requires |length| == 4 && length[0] >= 0x80
    ensures ReadEntry(length + trailing) == Failure(NegativeArraySize)
  {
    var t := length + trailing;
    assert t[0] == length[0];
  }

  /** The count byte, then the rest of the stream. */
  lemma DecodeCons(c: byte, rest: seq<byte>)
    ensures Decode([c] + rest) == ReadEntries(rest, c as int)
  {
    assert ([c] + rest)[1..] == rest;
  }

  lemma ConcatAssoc(a: seq<byte>, b: seq<byte>, c: seq<byte>)
    ensures a + b + c == a + (b + c)
  {
  }

  /**
   * After some well-framed entries, a length whose top bit is set makes
   * `ByteArray(length)` throw, whatever follows it.
   */
  lemma DecodeNegativeLength(blobs: seq<Blob>, count: nat, length: seq<byte>, trailing: seq<byte>)
    requires EntriesEncodable(blobs) && |blobs| < count < 0x100
    requires |length| == 4 && length[0] >= 0x80
    ensures Decode([count as byte] + EncodeEntries(blobs) + length + trailing) == Failure(NegativeArraySize)
  {
    var head := [count as byte] + EncodeEntries(blobs);
    ConcatAssoc(head, length, trailing);
    ConcatAssoc([count as byte], EncodeEntries(blobs), length + trailing);
    DecodeCons(count as byte, EncodeEntries(blobs) + (length + trailing));
    ReadEntryNegative(length, trailing);
    ReadEntriesFramed(blobs, length + trailing, count, count - |blobs|);
  }
}
