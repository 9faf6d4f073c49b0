/**
 * The parsing of `-E <type><s><data>` arguments in the command-line front
 * end: a four-character tag, a selector, and then either a string (`=`) or
 * hex bytes (`-`).  A C string is modelled as its bytes without the
 * terminating NUL, so `strlen` is the length of the sequence.
 */
module Img2Cli {
  import opened Wrappers
  import opened Bytes
  import opened Img2Layout

  datatype CliError = MalformedExtension | InvalidSelector | OddHexString | BadHexString

  const Equals: u8 := 0x3D   // '='
  const Dash: u8 := 0x2D     // '-'

  /** The bytes of a C string: none of them is the terminator. */
  predicate CString(s: seq<u8>)
  {
    forall i :: 0 <= i < |s| ==> s[i] != 0
  }

  predicate IsHexDigit(c: u8)
  {
    0x30 <= c <= 0x39 || 0x41 <= c <= 0x46 || 0x61 <= c <= 0x66
  }

  function HexValue(c: u8): (v: nat)
    requires IsHexDigit(c)
    ensures v < 16
  {
    if c <= 0x39 then c - 0x30 else if c <= 0x46 then c - 0x41 + 10 else c - 0x61 + 10
  }

  /**
   * `sscanf(p, "%02x", &t)` on a pair that starts with a hex digit: it reads
   * at most two digits, and only one when the second character is not a digit.
   */
  function PairValue(a: u8, b: u8): (r: u8)
    requires IsHexDigit(a)
    ensures IsHexDigit(b) ==> r / 16 == HexValue(a) && r % 16 == HexValue(b)
    ensures !IsHexDigit(b) ==> r == HexValue(a)
  {
    if IsHexDigit(b) then 16 * HexValue(a) + HexValue(b) else HexValue(a)
  }

  function Glue(p: seq<u8>, r: Result<seq<u8>, CliError>): Result<seq<u8>, CliError>
  {
    match r
    case Success(t) => Success(p + t)
    case Failure(e) => Failure(e)
  }

  /**
   * What `parseHexbytes` returns, pair by pair from the front: a lone last
   * character is an odd hex string, a pair that does not start with a hex
   * digit fails the `sscanf`.
   */
  function HexBytes(s: seq<u8>): (r: Result<seq<u8>, CliError>)
    requires CString(s)
    ensures r.Success? ==> 2 * |r.value| == |s|
    ensures r.Failure? ==> r.error == OddHexString || r.error == BadHexString
    decreases |s|
  {
    if |s| == 0 then Success([])
    else if |s| == 1 then Failure(OddHexString)
    else if !IsHexDigit(s[0]) then Failure(BadHexString)
    else Glue([PairValue(s[0], s[1])], HexBytes(s[2..]))
  }

  /** Appending in two steps is appending once: what keeps `ParseHexbytes`'s loop invariant. */
  lemma GlueGlue(a: seq<u8>, b: seq<u8>, r: Result<seq<u8>, CliError>)
    ensures Glue(a, Glue(b, r)) == Glue(a + b, r)
  {
    if r.Success? {
      assert a + (b + r.value) == a + b + r.value;
    }
  }

  /** `parseHexbytes`: walks the string two characters at a time, appending one byte per pair. */
  method ParseHexbytes(s: seq<u8>) returns (r: Result<seq<u8>, CliError>)
    requires CString(s)
    ensures r == HexBytes(s)
  {
    var ret: seq<u8> := [];
    var i := 0;
    assert s[i..] == s;
    if HexBytes(s).Success? {
      assert ret + HexBytes(s).value == HexBytes(s).value;
    }
    while i < |s|
      invariant i <= |s| && CString(s[i..])
      invariant HexBytes(s) == Glue(ret, HexBytes(s[i..]))
      decreases |s| - i
    {
      if i + 1 == |s| {
        return Failure(OddHexString);
      }
      if !IsHexDigit(s[i]) {
        return Failure(BadHexString);
      }
      var t := PairValue(s[i], s[i + 1]);
      assert s[i..][2..] == s[i + 2..];
      GlueGlue(ret, [t], HexBytes(s[i + 2..]));
      ret := ret + [t];
      i := i + 2;
    }
    assert s[i..] == [] && ret + [] == ret;
    return Success(ret);
  }

  /** Parsing succeeds exactly for an even number of characters where every pair starts with a hex digit. */
  lemma {:induction false} HexBytesIff(s: seq<u8>)
    requires CString(s)
    ensures HexBytes(s).Success? <==> |s| % 2 == 0 && forall k :: 0 <= k < |s| / 2 ==> IsHexDigit(s[2 * k])
    decreases |s|
  {
    if |s| >= 2 {
      var t := s[2..];
      HexBytesIff(t);
      assert |t| / 2 == |s| / 2 - 1 && |t| % 2 == |s| % 2;
      if HexBytes(s).Success? {
        assert IsHexDigit(s[0]) && HexBytes(t).Success?;
        forall k | 0 <= k < |s| / 2
          ensures IsHexDigit(s[2 * k])
        {
          if k > 0 {
            assert s[2 * k] == t[2 * (k - 1)];
          }
        }
      }
      if |s| % 2 == 0 && forall k :: 0 <= k < |s| / 2 ==> IsHexDigit(s[2 * k]) {
        assert IsHexDigit(s[2 * 0]);
        forall k | 0 <= k < |t| / 2
          ensures IsHexDigit(t[2 * k])
        {
          assert t[2 * k] == s[2 * (k + 1)];
        }
        assert HexBytes(s) == Glue([PairValue(s[0], s[1])], HexBytes(t));
      }
    }
  }

  /** A successful parse has one byte per pair, each the value `sscanf` reads from that pair. */
  lemma {:induction false} HexBytesValues(s: seq<u8>)
    requires CString(s) && HexBytes(s).Success?
    ensures var b := HexBytes(s).value;
            && |b| == |s| / 2 && |s| % 2 == 0
            && forall k :: 0 <= k < |b| ==> IsHexDigit(s[2 * k]) && b[k] == PairValue(s[2 * k], s[2 * k + 1])
    decreases |s|
  {
    if |s| >= 2 {
      var t := s[2..];
      HexBytesValues(t);
      var b, bt := HexBytes(s).value, HexBytes(t).value;
      assert b == [PairValue(s[0], s[1])] + bt;
      forall k | 0 <= k < |b|
        ensures IsHexDigit(s[2 * k]) && b[k] == PairValue(s[2 * k], s[2 * k + 1])
      {
        if k > 0 {
          assert b[k] == bt[k - 1] && t[2 * (k - 1)] == s[2 * k] && t[2 * (k - 1) + 1] == s[2 * k + 1];
        }
      }
    }
  }

  /** The failure is an odd hex string exactly when every complete pair starts with a hex digit and one character is left over. */
  lemma {:induction false} HexBytesOdd(s: seq<u8>)
    requires CString(s) && HexBytes(s).Failure?
    ensures HexBytes(s).error == OddHexString <==> |s| % 2 == 1 && forall k :: 0 <= k < |s| / 2 ==> IsHexDigit(s[2 * k])
    decreases |s|
  {
    if |s| >= 2 && !IsHexDigit(s[0]) {
      assert !IsHexDigit(s[2 * 0]);
    } else if |s| >= 2 {
      var t := s[2..];
      HexBytesOdd(t);
      assert HexBytes(s).error == HexBytes(t).error;
      assert |t| / 2 == |s| / 2 - 1 && |t| % 2 == |s| % 2;
      assert forall k :: 0 <= k < |t| / 2 ==> t[2 * k] == s[2 * (k + 1)];
      if !(forall k :: 0 <= k < |s| / 2 ==> IsHexDigit(s[2 * k])) {
        var k :| 0 <= k < |s| / 2 && !IsHexDigit(s[2 * k]);
        assert k > 0 && !IsHexDigit(t[2 * (k - 1)]);
      }
    }
  }

  // ---------------------------------------------------------------------------
  // Writing bytes as hex, the inverse of parsing.

  /** The lower-case hex digit for `n`. */
  function Digit(n: nat): (c: u8)
    requires n < 16
    ensures IsHexDigit(c) && HexValue(c) == n && c != 0
  {
    if n < 10 then 0x30 + n else 0x61 + n - 10
  }

  /** Two lower-case hex digits per byte. */
  function HexEncode(b: seq<u8>): (s: seq<u8>)
    ensures |s| == 2 * |b|
  {
    if b == [] then [] else [Digit(b[0] / 16), Digit(b[0] % 16)] + HexEncode(b[1..])
  }

  /** Hex-encoded bytes form a C string. */
  lemma {:induction false} HexEncodeCString(b: seq<u8>)
    ensures CString(HexEncode(b))
    decreases |b|
  {
    if b != [] {
      HexEncodeCString(b[1..]);
      var s, t := HexEncode(b), HexEncode(b[1..]);
      assert forall i :: 2 <= i < |s| ==> s[i] == t[i - 2];
    }
  }

  /** Parsing the hex encoding of any bytes gives those bytes back. */
  lemma {:induction false} HexRoundTrip(b: seq<u8>)
    ensures CString(HexEncode(b)) && HexBytes(HexEncode(b)) == Success(b)
    decreases |b|
  {
    HexEncodeCString(b);
    if b != [] {
      var s := HexEncode(b);
      HexRoundTrip(b[1..]);
      assert s[2..] == HexEncode(b[1..]);
      assert PairValue(s[0], s[1]) == b[0];
      assert [b[0]] + b[1..] == b;
    }
  }

  // ---------------------------------------------------------------------------
  // `parseExtension`.

  /** The first four characters read as a big-endian number: the type code as the user spelt it. */
  function TagValue(s: seq<u8>): u32
    requires 4 <= |s|
  {
    s[0] as int * 0x100_0000 + s[1] as int * 0x1_0000 + s[2] as int * 0x100 + s[3] as int
  }

  /** The four characters that spell the type code `t`. */
  function TagChars(t: u32): (s: seq<u8>)
    ensures |s| == 4
  {
    assert t / 0x100_0000 < 0x100 && t / 0x1_0000 >= 0 && t / 0x100 >= 0;
    [t / 0x100_0000, (t / 0x1_0000) % 0x100, (t / 0x100) % 0x100, t % 0x100]
  }

  /** `htonl(*(uint32_t*)str)` on a little-endian host: the first four characters, big-endian. */
  lemma {:induction false} HtonlTag(s: seq<u8>)
    requires 4 <= |s|
    ensures Swap32(ReadLE32(s, 0)) == TagValue(s)
  {
    var v := ReadLE32(s, 0);
    ReadLE32Encode(s, 0);
    assert LE32(v) == s[..4];
    assert v % 0x100 == s[0] && (v / 0x100) % 0x100 == s[1];
    assert (v / 0x1_0000) % 0x100 == s[2] && v / 0x100_0000 == s[3];
  }

  lemma {:induction false} TagCharsValue(t: u32)
    ensures TagValue(TagChars(t)) == t
  {
    var a, b, c := t / 0x100, t / 0x1_0000, t / 0x100_0000;
    assert t == a * 0x100 + t % 0x100;
    assert a == b * 0x100 + a % 0x100;
    assert b == c * 0x100 + b % 0x100;
    assert b == a / 0x100 && c == b / 0x100;
  }

  /**
   * `parseExtension`: at least one character after `<type><s>`, the tag from the
   * first four characters, then a string with its terminator (`=`) or hex bytes (`-`).
   */
  function ParseExtension(str: seq<u8>): (r: Result<Img2Extension, CliError>)
    requires CString(str)
    ensures |str| <= 5 ==> r == Failure(MalformedExtension)
    ensures 5 < |str| && str[4] != Equals && str[4] != Dash ==> r == Failure(InvalidSelector)
    ensures 5 < |str| && str[4] == Equals ==> r == Success(Img2Extension(TagValue(str), str[5..] + [0]))
    ensures 5 < |str| && str[4] == Dash ==>
              && (r.Success? <==> HexBytes(str[5..]).Success?)
              && (r.Success? ==> r.value == Img2Extension(TagValue(str), HexBytes(str[5..]).value))
              && (r.Failure? ==> r.error == HexBytes(str[5..]).error)
  {
    if |str| <= 5 then Failure(MalformedExtension)
    else
      var tag := Swap32(ReadLE32(str, 0));
      HtonlTag(str);
      if str[4] == Equals then Success(Img2Extension(tag, str[5..] + [0]))
      else if str[4] == Dash then
        match HexBytes(str[5..])
        case Success(data) => Success(Img2Extension(tag, data))
        case Failure(e) => Failure(e)
      else Failure(InvalidSelector)
  }

  /** `-E <tag>=<text>` adds the extension `tag` holding the text and its terminator. */
  lemma StringExtensionRoundTrip(tag: u32, text: seq<u8>)
    requires CString(TagChars(tag)) && CString(text) && text != []
    ensures CString(TagChars(tag) + [Equals] + text)
    ensures ParseExtension(TagChars(tag) + [Equals] + text) == Success(Img2Extension(tag, text + [0]))
  {
    var str := TagChars(tag) + [Equals] + text;
    assert str[..4] == TagChars(tag) && str[4] == Equals && str[5..] == text;
    TagCharsValue(tag);
    assert TagValue(str) == TagValue(TagChars(tag));
  }

  /** `-E <tag>-<hex>` with the hex encoding of non-empty `data` adds the extension `tag` holding `data`. */
  lemma HexExtensionRoundTrip(tag: u32, data: seq<u8>)
    requires CString(TagChars(tag)) && data != []
    ensures CString(TagChars(tag) + [Dash] + HexEncode(data))
    ensures ParseExtension(TagChars(tag) + [Dash] + HexEncode(data)) == Success(Img2Extension(tag, data))
  {
    var str := TagChars(tag) + [Dash] + HexEncode(data);
    HexEncodeCString(data);
    assert str[..4] == TagChars(tag) && str[4] == Dash && str[5..] == HexEncode(data);
    assert forall i :: 5 <= i < |str| ==> str[i] == HexEncode(data)[i - 5];
    HexRoundTrip(data);
    TagCharsValue(tag);
    assert TagValue(str) == TagValue(TagChars(tag));
  }
}
