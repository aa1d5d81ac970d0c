/** C strings as the queue stores them, and the bounded copy of a removed
    value into a caller's buffer.

    A stored value is the payload of a NUL-terminated byte array; the model
    keeps the payload only, so a `CStr` never contains NUL and its terminator
    is implicit; each `char` stands for one byte. A caller's buffer is
    described by the bytes written through it, counted from `sp[0]`. */
module CStrings {

  const NUL: char := '\0'

  /** `size_t` is 64 bits wide, as on an LP64 platform; its arithmetic
      wraps modulo this. */
  const SizeTModulus: nat := 0x1_0000_0000_0000_0000

  predicate NoNul(s: string) {
    forall i :: 0 <= i < |s| ==> s[i] != NUL
  }

  type CStr = s: string | NoNul(s)

  function Min(a: nat, b: nat): (r: nat) {
    if a <= b then a else b
  }

  /** The length loop of the remove operations: count characters of the
      terminated array until its NUL. */
  method StrLen(s: CStr) returns (len: int)
    ensures len == |s|
  {
    var mem := s + [NUL];
    len := 0;
    while mem[len] != NUL
      invariant 0 <= len <= |s|
      decreases |s| - len
    {
      len := len + 1;
    }
  }

  /** `strncpy(dst, src, n)`: exactly `n` bytes are stored, the characters
      of `src` up to its terminator and NUL padding after them. */
  function Strncpy(src: CStr, n: nat): (r: seq<char>)
    ensures |r| == n
    ensures forall i :: 0 <= i < n ==> r[i] == if i < |src| then src[i] else NUL
  {
    if n <= |src| then src[..n] else src + seq(n - |src|, _ => NUL)
  }

  /** What one buffer copy stores: the region filled by `strncpy` from
      `sp[0]`, and the index of the terminator written after it. */
  datatype Writes = Writes(copied: seq<char>, nulAt: nat)

  /** True when a copy touches a byte outside a buffer of `bufsize` bytes. */
  predicate Overruns(w: Writes, bufsize: nat) {
    |w.copied| > bufsize || w.nulAt >= bufsize
  }

  /** The copy exactly as the remove operations perform it: truncate only
      when the value is strictly longer than the buffer, with `bufsize - 1`
      computed in `size_t`. */
  function CopyAsWritten(value: CStr, bufsize: nat): (w: Writes)
    requires bufsize < SizeTModulus
    ensures w.nulAt == |w.copied|
    ensures |value| < w.nulAt || w.copied == value[..w.nulAt]
  {
    var len := |value|;
    if len > bufsize then
      var n := (bufsize + SizeTModulus - 1) % SizeTModulus;
      Writes(Strncpy(value, n), n)
    else
      Writes(Strncpy(value, len), len)
  }

  /** A value exactly as long as the buffer gets its terminator written one
      byte past the buffer's end. */
  lemma CopyOverrunsAtFullLength(value: CStr)
    requires |value| < SizeTModulus
    ensures CopyAsWritten(value, |value|).nulAt == |value|
    ensures Overruns(CopyAsWritten(value, |value|), |value|)
  {
  }

  /** A zero-byte buffer is always overrun: `bufsize - 1` wraps to the
      largest `size_t` when the value is non-empty, and the terminator lands
      at `sp[0]` when it is empty. */
  lemma CopyOverrunsAtZeroSize(value: CStr)
    ensures |value| > 0 ==> CopyAsWritten(value, 0).nulAt == SizeTModulus - 1
    ensures Overruns(CopyAsWritten(value, 0), 0)
  {
  }

  /** Away from those two sizes the copy as written is the corrected one. */
  lemma CopyAsWrittenAgreesElsewhere(value: CStr, bufsize: nat)
    requires 0 < bufsize < SizeTModulus
    requires |value| != bufsize
    ensures !Overruns(CopyAsWritten(value, bufsize), bufsize)
    ensures CopyAsWritten(value, bufsize).copied + [NUL] == CopyOut(value, bufsize)
  {
  }

  /** The copy step of the remove operations: measure the value, then copy
      it the way the code does, truncating only when it is longer than the
      buffer. `written` is what the code stores from `sp[0]`, its terminator
      included; `copied` is the corrected bounded copy. The two agree except
      for a zero-byte buffer and a value exactly as long as the buffer,
      where the code writes one byte more than the buffer holds. */
  method CopyToBuffer(value: CStr, bufsize: nat) returns (written: seq<char>, copied: seq<char>)
    requires bufsize < SizeTModulus
    ensures written == CopyAsWritten(value, bufsize).copied + [NUL]
    ensures copied == CopyOut(value, bufsize)
    ensures 0 < bufsize && |value| != bufsize ==> written == copied
    ensures |value| == bufsize ==> |written| == bufsize + 1
  {
    var len := StrLen(value);
    var n := if len > bufsize then (bufsize + SizeTModulus - 1) % SizeTModulus else len;
    written := Strncpy(value, n) + [NUL];
    copied := CopyOut(value, bufsize);
    if 0 < bufsize && len != bufsize {
      CopyAsWrittenAgreesElsewhere(value, bufsize);
    }
  }

  /** The bounded copy the remove operations promise: at most `bufsize - 1`
      characters of the value, then a terminator, never more than `bufsize`
      bytes; a zero-byte buffer receives nothing. */
  function CopyOut(value: CStr, bufsize: nat): (w: seq<char>)
    ensures |w| <= bufsize
    ensures bufsize == 0 ==> w == []
    ensures bufsize > 0 ==> |w| == Min(|value|, bufsize - 1) + 1
    ensures bufsize > 0 ==> w[|w| - 1] == NUL && w[..|w| - 1] == value[..|w| - 1]
    ensures |value| < bufsize ==> w == value + [NUL]
  {
    if bufsize == 0 then []
    else
      var n := if |value| >= bufsize then bufsize - 1 else |value|;
      Strncpy(value, n) + [NUL]
  }
}
