/** Key derivation of src/utils.rs: `key_from_slice`, which turns a
    password into the 32-byte key of the XSalsa20-Poly1305 secret box. */
module Utils {
  import opened Wrappers

  /** Rust's `u8`. */
  newtype byte = x: int | 0 <= x < 256

  /** `secretbox::xsalsa20poly1305::KEYBYTES`: the key width in bytes. */
  const KeyBytes: nat := 32

  /** `key_from_slice` panics on a password longer than the key; the
      model reports that case with the offending length instead. */
  datatype KeyError = SliceTooLong(len: nat)

  /** `n` zero bytes. */
  function Zeros(n: nat): (z: seq<byte>)
    ensures |z| == n
    ensures forall i :: 0 <= i < n ==> z[i] == 0
  {
    seq(n, _ => 0)
  }

  /** The key a password of at most 32 bytes yields: its own bytes first,
      then zero bytes up to the key width. */
  function PaddedKey(slice: seq<byte>): (key: seq<byte>)
    requires |slice| <= KeyBytes
    ensures |key| == KeyBytes
    ensures forall i :: 0 <= i < |slice| ==> key[i] == slice[i]
    ensures forall i :: |slice| <= i < KeyBytes ==> key[i] == 0
  {
    slice + Zeros(KeyBytes - |slice|)
  }

  /** `key_from_slice`, with the password given as the bytes of its UTF-8
      encoding. A password longer than 32 bytes is rejected with its
      length; any other is copied byte by byte over a zeroed 32-byte
      buffer, so the key is `PaddedKey(slice)`. */
  method KeyFromSlice(slice: seq<byte>) returns (r: Result<seq<byte>, KeyError>)
    ensures r.Failure? <==> |slice| > KeyBytes
    ensures r.Failure? ==> r.error == SliceTooLong(|slice|)
    ensures r.Success? ==> |slice| <= KeyBytes && r.value == PaddedKey(slice)
  {
    if |slice| > KeyBytes {
      return Failure(SliceTooLong(|slice|));
    }
    var key := Zeros(KeyBytes);
    var index := 0;
    while index < |slice|
      invariant index <= |slice|
      invariant |key| == KeyBytes
      invariant forall i :: 0 <= i < index ==> key[i] == slice[i]
      invariant forall i :: index <= i < KeyBytes ==> key[i] == 0
    {
      key := key[index := slice[index]];
      index := index + 1;
    }
    return Success(key);
  }

  /** The empty password is accepted and yields the all-zero key: a weak
      key that the function does not refuse. */
  lemma EmptyPasswordGivesZeroKey()
    ensures PaddedKey([]) == Zeros(KeyBytes)
  {
  }

  /** `slice` without its trailing zero bytes. */
  function TrimZeros(slice: seq<byte>): (t: seq<byte>)
    ensures |t| <= |slice|
    ensures t == slice[..|t|]
    ensures forall i :: |t| <= i < |slice| ==> slice[i] == 0
    ensures t == [] || t[|t| - 1] != 0
    decreases |slice|
  {
    if slice != [] && slice[|slice| - 1] == 0 then TrimZeros(slice[..|slice| - 1]) else slice
  }

  /** Appending zero bytes does not change what trimming leaves. */
  lemma {:induction false} TrimZerosAppendZeros(slice: seq<byte>, k: nat)
    ensures TrimZeros(slice + Zeros(k)) == TrimZeros(slice)
    decreases k
  {
    if k > 0 {
      var longer := slice + Zeros(k);
      assert longer[|longer| - 1] == 0;
      assert longer[..|longer| - 1] == slice + Zeros(k - 1);
      assert TrimZeros(longer) == TrimZeros(slice + Zeros(k - 1));
      TrimZerosAppendZeros(slice, k - 1);
    } else {
      assert slice + Zeros(k) == slice;
    }
  }

  /** Dropping one trailing zero byte does not change the key. */
  lemma PaddedKeyDropZero(slice: seq<byte>)
    requires 0 < |slice| <= KeyBytes && slice[|slice| - 1] == 0
    ensures PaddedKey(slice[..|slice| - 1]) == PaddedKey(slice)
  {
    var shorter := PaddedKey(slice[..|slice| - 1]);
    var key := PaddedKey(slice);
    forall i | 0 <= i < KeyBytes
      ensures shorter[i] == key[i]
    {
    }
  }

  /** A password and its trimmed form give the same key. */
  lemma {:induction false} PaddedKeyOfTrim(slice: seq<byte>)
    requires |slice| <= KeyBytes
    ensures PaddedKey(TrimZeros(slice)) == PaddedKey(slice)
    decreases |slice|
  {
    if slice != [] && slice[|slice| - 1] == 0 {
      PaddedKeyOfTrim(slice[..|slice| - 1]);
      PaddedKeyDropZero(slice);
    }
  }

  /** Two passwords of at most 32 bytes give the same key exactly when
      they differ only by trailing zero bytes. In particular appending
      zero bytes to a password does not change its key. */
  lemma SameKeyIffSameUpToTrailingZeros(a: seq<byte>, b: seq<byte>)
    requires |a| <= KeyBytes && |b| <= KeyBytes
    ensures PaddedKey(a) == PaddedKey(b) <==> TrimZeros(a) == TrimZeros(b)
  {
    if TrimZeros(a) == TrimZeros(b) {
      PaddedKeyOfTrim(a);
      PaddedKeyOfTrim(b);
    }
    if PaddedKey(a) == PaddedKey(b) {
      TrimZerosAppendZeros(a, KeyBytes - |a|);
      TrimZerosAppendZeros(b, KeyBytes - |b|);
    }
  }

  /** Trailing zero bytes never change the key. */
  lemma TrailingZerosIgnored(slice: seq<byte>, k: nat)
    requires |slice| + k <= KeyBytes
    ensures PaddedKey(slice + Zeros(k)) == PaddedKey(slice)
  {
    TrimZerosAppendZeros(slice, k);
    SameKeyIffSameUpToTrailingZeros(slice + Zeros(k), slice);
  }
}
