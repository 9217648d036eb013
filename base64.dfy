/**
 * Base64 (the alphabet and padding of section 4 of RFC 4648) as .NET's
 * `Convert.FromBase64String` decodes it and `Convert.ToBase64String` encodes it.
 * The decoder ignores spaces, tabs, carriage returns and line feeds anywhere in
 * the text, demands a multiple of four remaining characters, and allows one or
 * two `=` only at the very end.
 */
module Base64 {
  import opened Common

  /** The 64 characters of the base64 alphabet. */
  predicate IsBase64Char(c: char)
  {
    ('A' <= c <= 'Z') || ('a' <= c <= 'z') || ('0' <= c <= '9') || c == '+' || c == '/'
  }

  /** The six-bit value a base64 character stands for. */
  function CharValue(c: char): (v: nat)
    requires IsBase64Char(c)
    ensures v < 64
  {
    if 'A' <= c <= 'Z' then (c as int) - ('A' as int)
    else if 'a' <= c <= 'z' then (c as int) - ('a' as int) + 26
    else if '0' <= c <= '9' then (c as int) - ('0' as int) + 52
    else if c == '+' then 62
    else 63
  }

  /** The base64 character that stands for a six-bit value; the inverse of `CharValue`. */
  function CharOf(v: nat): (c: char)
    requires v < 64
    ensures IsBase64Char(c) && CharValue(c) == v
  {
    if v < 26 then (('A' as int) + v) as char
    else if v < 52 then (('a' as int) + v - 26) as char
    else if v < 62 then (('0' as int) + v - 52) as char
    else if v == 62 then '+'
    else '/'
  }


  /** The white space `Convert.FromBase64String` skips. */
  predicate IsSkipped(c: char)
  {
    c == ' ' || c == '\t' || c == '\r' || c == '\n'
  }

  function RemoveSkipped(s: string): (r: string)
    ensures forall c :: c in r ==> c in s && !IsSkipped(c)
  {
    if s == [] then []
    else if IsSkipped(s[0]) then RemoveSkipped(s[1..])
    else [s[0]] + RemoveSkipped(s[1..])
  }

  /** Three bytes from a group of four alphabet characters. */
  function DecodeGroup(a: char, b: char, c: char, d: char): Try<seq<uint8>>
  {
    if IsBase64Char(a) && IsBase64Char(b) && IsBase64Char(c) && IsBase64Char(d) then
      var va, vb, vc, vd := CharValue(a), CharValue(b), CharValue(c), CharValue(d);
      Returned([va * 4 + vb / 16, (vb % 16) * 16 + vc / 4, (vc % 4) * 64 + vd])
    else Threw(FormatException)
  }

  /** The last group, which may end in `==` (one byte) or `=` (two bytes). The bits
      the padding leaves over are dropped without being checked. */
  function DecodeFinalGroup(a: char, b: char, c: char, d: char): Try<seq<uint8>>
  {
    if d != '=' then DecodeGroup(a, b, c, d)
    else if c == '=' then
      if IsBase64Char(a) && IsBase64Char(b) then
        Returned([CharValue(a) * 4 + CharValue(b) / 16])
      else Threw(FormatException)
    else if IsBase64Char(a) && IsBase64Char(b) && IsBase64Char(c) then
      var va, vb, vc := CharValue(a), CharValue(b), CharValue(c);
      Returned([va * 4 + vb / 16, (vb % 16) * 16 + vc / 4])
    else Threw(FormatException)
  }

  /** Decodes text free of skipped white space, four characters at a time. */
  function DecodeGroups(t: string): (r: Try<seq<uint8>>)
    requires |t| % 4 == 0
    ensures r.Threw? ==> r.ex == FormatException
    decreases |t|
  {
    if t == [] then Returned([])
    else if |t| == 4 then DecodeFinalGroup(t[0], t[1], t[2], t[3])
    else
      match DecodeGroup(t[0], t[1], t[2], t[3])
      case Threw(e) => Threw(e)
      case Returned(head) =>
        match DecodeGroups(t[4..])
        case Threw(e) => Threw(e)
        case Returned(tail) => Returned(head + tail)
  }

  /** Each group of four characters gives three bytes, except that the last
      gives one or two when padded. */
  lemma {:induction false} DecodeGroupsLength(t: string)
    requires |t| % 4 == 0 && DecodeGroups(t).Returned?
    ensures 3 * (|t| / 4) - 2 <= |DecodeGroups(t).value| <= 3 * (|t| / 4)
    decreases |t|
  {
    if |t| > 4 {
      DecodeGroupsLength(t[4..]);
    }
  }

  /** `Convert.FromBase64String`. */
  function Decode(s: string): (r: Try<seq<uint8>>)
    ensures r.Threw? ==> r.ex == FormatException
  {
    var t := RemoveSkipped(s);
    if |t| % 4 != 0 then Threw(FormatException) else DecodeGroups(t)
  }

  /** `Convert.ToBase64String`: four characters per three bytes, the last group
      padded with `=` to four characters. */
  function Encode(b: seq<uint8>): (r: string)
    ensures |r| % 4 == 0
    ensures forall c :: c in r ==> IsBase64Char(c) || c == '='
    decreases |b|
  {
    if b == [] then []
    else if |b| == 1 then EncodeOne(b[0])
    else if |b| == 2 then EncodeTwo(b[0], b[1])
    else
      var head, tail := EncodeGroup(b[0], b[1], b[2]), Encode(b[3..]);
      assert forall c :: c in head + tail ==> c in head || c in tail;
      head + tail
  }

  /** Four characters for three bytes. */
  function EncodeGroup(x: uint8, y: uint8, z: uint8): (r: string)
    ensures |r| == 4 && forall c :: c in r ==> IsBase64Char(c)
  {
    [CharOf(x / 4), CharOf((x % 4) * 16 + y / 16), CharOf((y % 16) * 4 + z / 64), CharOf(z % 64)]
  }

  /** A last group holding one byte: two characters and `==`. */
  function EncodeOne(x: uint8): (r: string)
    ensures |r| == 4 && forall c :: c in r ==> IsBase64Char(c) || c == '='
  {
    [CharOf(x / 4), CharOf((x % 4) * 16), '=', '=']
  }

  /** A last group holding two bytes: three characters and `=`. */
  function EncodeTwo(x: uint8, y: uint8): (r: string)
    ensures |r| == 4 && forall c :: c in r ==> IsBase64Char(c) || c == '='
  {
    [CharOf(x / 4), CharOf((x % 4) * 16 + y / 16), CharOf((y % 16) * 4), '=']
  }

  // ---------------------------------------------------------------------------
  // Decoding inverts encoding

  lemma SplitByte4(x: int)
    requires 0 <= x < 256
    ensures 0 <= x / 4 < 64 && (x / 4) * 4 + x % 4 == x
  {
  }

  lemma SplitByte16(x: int)
    requires 0 <= x < 256
    ensures 0 <= x / 16 < 16 && (x / 16) * 16 + x % 16 == x
  {
  }

  lemma SplitByte64(x: int)
    requires 0 <= x < 256
    ensures 0 <= x / 64 < 4 && (x / 64) * 64 + x % 64 == x
  {
  }

  /** The first byte of a group survives the trip through its two sextets. */
  lemma FirstByteBack(x: int, y: int)
    requires 0 <= x < 256 && 0 <= y < 16
    ensures ((x % 4) * 16 + y) / 16 == x % 4
    ensures ((x % 4) * 16 + y) % 16 == y
    ensures (x / 4) * 4 + ((x % 4) * 16 + y) / 16 == x
  {
    SplitByte4(x);
  }

  /** The second byte of a group survives the trip through its two sextets. */
  lemma SecondByteBack(x: int, y: int)
    requires 0 <= x < 256 && 0 <= y < 4
    ensures ((x % 16) * 4 + y) / 4 == x % 16
    ensures ((x % 16) * 4 + y) % 4 == y
    ensures (x / 16) * 16 + ((x % 16) * 4 + y) / 4 == x
  {
    SplitByte16(x);
  }

  /** The encoding of three bytes decodes to those bytes, as an inner group or
      as the last one. */
  lemma {:induction false} GroupRoundTrip(x: uint8, y: uint8, z: uint8)
    ensures var g := EncodeGroup(x, y, z);
            && DecodeGroup(g[0], g[1], g[2], g[3]) == Returned([x, y, z])
            && DecodeFinalGroup(g[0], g[1], g[2], g[3]) == Returned([x, y, z])
  {
    SplitByte16(y);
    SplitByte64(z);
    FirstByteBack(x, y / 16);
    SecondByteBack(y, z / 64);
    var va, vb, vc, vd := x / 4, (x % 4) * 16 + y / 16, (y % 16) * 4 + z / 64, z % 64;
    var g := EncodeGroup(x, y, z);
    assert g[3] in g;
  }

  /** One byte encodes to a group ending in `==` that decodes back to it. */
  lemma OneByteRoundTrip(x: uint8)
    ensures var g := EncodeOne(x);
            DecodeFinalGroup(g[0], g[1], g[2], g[3]) == Returned([x])
  {
    FirstByteBack(x, 0);
  }

  /** Two bytes encode to a group ending in `=` that decodes back to them. */
  lemma TwoBytesRoundTrip(x: uint8, y: uint8)
    ensures var g := EncodeTwo(x, y);
            DecodeFinalGroup(g[0], g[1], g[2], g[3]) == Returned([x, y])
  {
    SplitByte16(y);
    var hi, lo := y / 16, y % 16;
    FirstByteBack(x, hi);
    SecondByteBack(y, 0);
    var va, vb, vc := x / 4, (x % 4) * 16 + hi, lo * 4 + 0;
    assert DecodeFinalGroup(CharOf(va), CharOf(vb), CharOf(vc), '=')
        == Returned([va * 4 + vb / 16, (vb % 16) * 16 + vc / 4]);
  }

  /** Encoded text contains nothing the decoder skips. */
  lemma {:induction false} RemoveSkippedOfEncoded(s: string)
    requires forall c :: c in s ==> IsBase64Char(c) || c == '='
    ensures RemoveSkipped(s) == s
  {
    if s != [] {
      assert s[0] in s;
      assert forall c :: c in s[1..] ==> c in s;
      RemoveSkippedOfEncoded(s[1..]);
      assert [s[0]] + s[1..] == s;
    }
  }

  lemma {:induction false} DecodeGroupsEncode(b: seq<uint8>)
    ensures DecodeGroups(Encode(b)) == Returned(b)
    decreases |b|
  {
    if b == [] {
    } else if |b| == 1 {
      OneByteRoundTrip(b[0]);
      assert b == [b[0]];
    } else if |b| == 2 {
      TwoBytesRoundTrip(b[0], b[1]);
      assert b == [b[0], b[1]];
    } else {
      var g := EncodeGroup(b[0], b[1], b[2]);
      var rest := Encode(b[3..]);
      var t := g + rest;
      GroupRoundTrip(b[0], b[1], b[2]);
      assert t[0] == g[0] && t[1] == g[1] && t[2] == g[2] && t[3] == g[3];
      assert b == [b[0], b[1], b[2]] + b[3..];
      if |b| == 3 {
        assert rest == [] && t == g;
        assert b == [b[0], b[1], b[2]];
      } else {
        DecodeGroupsEncode(b[3..]);
        assert t[4..] == rest;
      }
    }
  }

  /** Round trip: `Convert.FromBase64String(Convert.ToBase64String(b))` is `b`. */
  lemma DecodeEncode(b: seq<uint8>)
    ensures Decode(Encode(b)) == Returned(b)
  {
    RemoveSkippedOfEncoded(Encode(b));
    DecodeGroupsEncode(b);
  }

  // ---------------------------------------------------------------------------
  // Which texts decode

  /** The text `Convert.FromBase64String` accepts, once skipped white space is
      removed: a multiple of four characters, all from the alphabet except that
      the last one or two may be `=`, and a `=` in the last but one place is
      followed by another. Any other text is a `FormatException`: a length that
      is not a multiple of four, a foreign character, a third `=`, or a `=`
      before the end. */
  predicate IsWellFormedBase64(t: string)
  {
    && |t| % 4 == 0
    && (forall i :: 0 <= i < |t| ==> IsBase64Char(t[i]) || (t[i] == '=' && |t| - 2 <= i))
    && (|t| >= 2 && t[|t| - 2] == '=' ==> t[|t| - 1] == '=')
  }

  /** A text of more than one group is well formed exactly when its first group
      is four alphabet characters and the rest is well formed. */
  lemma WellFormedFirstGroup(t: string)
    requires |t| % 4 == 0 && |t| > 4
    ensures IsWellFormedBase64(t)
        <==> (&& IsBase64Char(t[0]) && IsBase64Char(t[1]) && IsBase64Char(t[2]) && IsBase64Char(t[3])
              && IsWellFormedBase64(t[4..]))
  {
    var u := t[4..];
    assert t[|t| - 2] == u[|u| - 2] && t[|t| - 1] == u[|u| - 1];
    if IsWellFormedBase64(t) {
      assert |t| - 2 > 3;
      forall i | 0 <= i < |u| ensures IsBase64Char(u[i]) || (u[i] == '=' && |u| - 2 <= i) {
        assert u[i] == t[i + 4];
      }
    }
    if && IsBase64Char(t[0]) && IsBase64Char(t[1]) && IsBase64Char(t[2]) && IsBase64Char(t[3])
       && IsWellFormedBase64(u) {
      forall i | 4 <= i < |t| ensures IsBase64Char(t[i]) || (t[i] == '=' && |t| - 2 <= i) {
        assert t[i] == u[i - 4];
      }
    }
  }

  lemma {:induction false} DecodeGroupsAccepts(t: string)
    requires |t| % 4 == 0
    ensures DecodeGroups(t).Returned? <==> IsWellFormedBase64(t)
    decreases |t|
  {
    if |t| == 4 {
      assert DecodeGroups(t) == DecodeFinalGroup(t[0], t[1], t[2], t[3]);
      if IsWellFormedBase64(t) {
        assert IsBase64Char(t[0]) && IsBase64Char(t[1]);
      }
    } else if |t| > 4 {
      DecodeGroupsAccepts(t[4..]);
      WellFormedFirstGroup(t);
    }
  }

  /** `Convert.FromBase64String` returns exactly for the well-formed texts, once
      skipped white space is removed, and throws a `FormatException` for every
      other text. */
  lemma DecodeAccepts(s: string)
    ensures Decode(s).Returned? <==> IsWellFormedBase64(RemoveSkipped(s))
    ensures !IsWellFormedBase64(RemoveSkipped(s)) ==> Decode(s) == Threw(FormatException)
  {
    if |RemoveSkipped(s)| % 4 == 0 {
      DecodeGroupsAccepts(RemoveSkipped(s));
    }
  }

  // ---------------------------------------------------------------------------
  // What the decoder rejects

  /** A character outside the alphabet that is neither padding nor skipped white
      space makes decoding throw a `FormatException`. */
  lemma DecodeRejectsForeignChar(s: string, i: nat)
    requires i < |s| && !IsBase64Char(s[i]) && s[i] != '=' && !IsSkipped(s[i])
    ensures Decode(s) == Threw(FormatException)
  {
    var t := RemoveSkipped(s);
    ForeignCharSurvives(s, i);
    if |t| % 4 == 0 {
      var j :| 0 <= j < |t| && t[j] == s[i];
      DecodeGroupsRejects(t, j);
    }
  }

  lemma {:induction false} ForeignCharSurvives(s: string, i: nat)
    requires i < |s| && !IsSkipped(s[i])
    ensures exists j :: 0 <= j < |RemoveSkipped(s)| && RemoveSkipped(s)[j] == s[i]
  {
    if i == 0 {
      assert RemoveSkipped(s)[0] == s[0];
    } else {
      ForeignCharSurvives(s[1..], i - 1);
      var j :| 0 <= j < |RemoveSkipped(s[1..])| && RemoveSkipped(s[1..])[j] == s[1..][i - 1];
      if IsSkipped(s[0]) {
        assert RemoveSkipped(s)[j] == s[i];
      } else {
        assert RemoveSkipped(s)[j + 1] == s[i];
      }
    }
  }

  lemma {:induction false} DecodeGroupsRejects(t: string, j: nat)
    requires |t| % 4 == 0 && j < |t|
    requires !IsBase64Char(t[j]) && t[j] != '='
    ensures DecodeGroups(t) == Threw(FormatException)
    decreases |t|
  {
    if j >= 4 {
      assert t[4..][j - 4] == t[j];
      DecodeGroupsRejects(t[4..], j - 4);
      assert |t| != 4;
    } else if |t| == 4 {
      assert DecodeGroups(t) == DecodeFinalGroup(t[0], t[1], t[2], t[3]);
    } else {
      assert DecodeGroup(t[0], t[1], t[2], t[3]).Threw?;
    }
  }
}
