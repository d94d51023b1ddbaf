/** base64url as Python's `base64` module reads and writes it (RFC 4648, section 5). */
module Base64Url {
  import opened Wrappers
  import opened Streams

  function SextetChar(v: nat): char
    requires v < 64
  {
    if v < 26 then ('A' as int + v) as char
    else if v < 52 then ('a' as int + v - 26) as char
    else if v < 62 then ('0' as int + v - 52) as char
    else if v == 62 then '-'
    else '_'
  }

  /** The decoder translates '-' and '_' and so still takes '+' and '/'. */
  function CharSextet(c: char): (v: Option<nat>)
    ensures v.Some? ==> v.value < 64
  {
    if 'A' <= c <= 'Z' then Some(c as int - 'A' as int)
    else if 'a' <= c <= 'z' then Some(c as int - 'a' as int + 26)
    else if '0' <= c <= '9' then Some(c as int - '0' as int + 52)
    else if c == '-' || c == '+' then Some(62)
    else if c == '_' || c == '/' then Some(63)
    else None
  }

  lemma SextetRoundTrip(v: nat)
    requires v < 64
    ensures CharSextet(SextetChar(v)) == Some(v) && SextetChar(v) != '='
  {
  }

  /** The four characters of three bytes. */
  function Group(b0: nat, b1: nat, b2: nat): (group: string)
    requires b0 < 256 && b1 < 256 && b2 < 256
    ensures |group| == 4
  {
    [SextetChar(b0 / 4), SextetChar(b0 % 4 * 16 + b1 / 16), SextetChar(b1 % 16 * 4 + b2 / 64), SextetChar(b2 % 64)]
  }

  /** Groups of three bytes become four characters; a short last group is padded with '='. */
  function EncodePadded(raw: bytes): string {
    if raw == [] then ""
    else if |raw| == 1 then Group(raw[0] as nat, 0, 0)[..2] + "=="
    else if |raw| == 2 then Group(raw[0] as nat, raw[1] as nat, 0)[..3] + "="
    else Group(raw[0] as nat, raw[1] as nat, raw[2] as nat) + EncodePadded(raw[3..])
  }

  /** The three bytes of four sextets. */
  function JoinSextets(v0: nat, v1: nat, v2: nat, v3: nat): (byte, byte, byte)
    requires v0 < 64 && v1 < 64 && v2 < 64 && v3 < 64
  {
    ((v0 * 4 + v1 / 16) as byte, (v1 % 16 * 16 + v2 / 4) as byte, (v2 % 4 * 64 + v3) as byte)
  }

  function DecodePadded(text: string): Option<bytes>
    requires |text| % 4 == 0
  {
    if text == "" then Some([])
    else
      var last := |text| == 4;
      var pad := if last && text[3] == '=' then (if text[2] == '=' then 2 else 1) else 0;
      var v0, v1 := CharSextet(text[0]), CharSextet(text[1]);
      var v2 := if pad == 2 then Some(0) else CharSextet(text[2]);
      var v3 := if pad >= 1 then Some(0) else CharSextet(text[3]);
      if v0.None? || v1.None? || v2.None? || v3.None? then None
      else
        var (b0, b1, b2) := JoinSextets(v0.value, v1.value, v2.value, v3.value);
        if pad == 2 then Some([b0])
        else if pad == 1 then Some([b0, b1])
        else
          var rest := DecodePadded(text[4..]);
          if rest.None? then None else Some([b0, b1, b2] + rest.value)
  }

  /** Python's `text.rstrip("=")`. */
  function StripPadding(text: string): string {
    if text != "" && text[|text| - 1] == '=' then StripPadding(text[..|text| - 1]) else text
  }

  /** Python's `text + "=" * (-len(text) % 4)`. */
  function Repad(text: string): (padded: string)
    ensures |padded| % 4 == 0 && |padded| < |text| + 4 && text <= padded
    ensures forall i | |text| <= i < |padded| :: padded[i] == '='
  {
    match |text| % 4
    case 0 => text
    case 1 => text + "==="
    case 2 => text + "=="
    case _ => text + "="
  }

  /** The sextets of a group, read back, carry its bytes; none of its characters is padding. */
  lemma GroupSextets(b0: byte, b1: byte, b2: byte)
    ensures var g := Group(b0 as nat, b1 as nat, b2 as nat);
            && (forall i | 0 <= i < 4 :: CharSextet(g[i]).Some? && g[i] != '=')
            && JoinSextets(CharSextet(g[0]).value, CharSextet(g[1]).value, CharSextet(g[2]).value,
                           CharSextet(g[3]).value) == (b0, b1, b2)
            && (b2 == 0 ==> CharSextet(g[3]) == Some(0))
            && (b2 == 0 && b1 == 0 ==> CharSextet(g[2]) == Some(0))
  {
    hide SextetChar, CharSextet;
    SextetRoundTrip(b0 as nat / 4);
    SextetRoundTrip(b0 as nat % 4 * 16 + b1 as nat / 16);
    SextetRoundTrip(b1 as nat % 16 * 4 + b2 as nat / 64);
    SextetRoundTrip(b2 as nat % 64);
  }

  lemma {:induction false} DecodeEncodePadded(raw: bytes)
    ensures |EncodePadded(raw)| == (|raw| + 2) / 3 * 4
    ensures DecodePadded(EncodePadded(raw)) == Some(raw)
  {
    hide CharSextet, Group, JoinSextets;
    if |raw| == 1 {
      GroupSextets(raw[0], 0, 0);
      assert raw == [raw[0]];
    } else if |raw| == 2 {
      GroupSextets(raw[0], raw[1], 0);
      assert raw == [raw[0], raw[1]];
    } else if |raw| > 2 {
      GroupSextets(raw[0], raw[1], raw[2]);
      DecodeEncodePadded(raw[3..]);
      assert EncodePadded(raw)[4..] == EncodePadded(raw[3..]);
      assert raw == [raw[0], raw[1], raw[2]] + raw[3..];
    }
  }

  /** The padding of an encoding is the one its stripped length calls for. */
  lemma {:induction false} PaddingOf(raw: bytes) returns (body: string, pad: nat)
    requires raw != []
    ensures pad <= 2 && body != "" && body[|body| - 1] != '='
    ensures EncodePadded(raw) == body + "=="[..pad]
    ensures (|raw| + pad) % 3 == 0
  {
    hide CharSextet, Group, JoinSextets;
    if |raw| == 1 {
      GroupSextets(raw[0], 0, 0);
      body, pad := Group(raw[0] as nat, 0, 0)[..2], 2;
      assert "=="[..2] == "==";
    } else if |raw| == 2 {
      GroupSextets(raw[0], raw[1], 0);
      body, pad := Group(raw[0] as nat, raw[1] as nat, 0)[..3], 1;
      assert "=="[..1] == "=";
    } else {
      var group := Group(raw[0] as nat, raw[1] as nat, raw[2] as nat);
      GroupSextets(raw[0], raw[1], raw[2]);
      if |raw| == 3 {
        body, pad := group, 0;
        assert EncodePadded(raw[3..]) == "" && "=="[..0] == "";
      } else {
        assert EncodePadded(raw) == group + EncodePadded(raw[3..]);
        body, pad := PaddingOf(raw[3..]);
        assert group + (body + "=="[..pad]) == group + body + "=="[..pad];
        body := group + body;
      }
    }
  }

  lemma {:induction false} StripOnce(body: string, pad: nat)
    requires pad <= 2 && body != "" && body[|body| - 1] != '='
    ensures StripPadding(body + "=="[..pad]) == body
  {
    if pad == 0 {
      assert body + "=="[..0] == body;
    } else {
      StripOnce(body, pad - 1);
      assert (body + "=="[..pad])[..|body| + pad - 1] == body + "=="[..pad - 1];
    }
  }

  lemma StrippedLength(n: nat, pad: nat, length: nat)
    requires pad <= 2 && (n + pad) % 3 == 0 && length + pad == (n + 2) / 3 * 4
    ensures length % 4 == (4 - pad) % 4 && length == StrippedSize(n)
  {
    var groups := (n + pad) / 3;
    assert n == 3 * groups - pad && (n + 2) / 3 == groups;
  }

  lemma RepadBody(body: string, pad: nat)
    requires pad <= 2 && |body| % 4 == (4 - pad) % 4
    ensures Repad(body) == body + "=="[..pad]
  {
    match pad
    case 0 => assert "=="[..0] == "" && body + "" == body;
    case 1 => assert "=="[..1] == "=";
    case _ => assert "=="[..2] == "==";
  }

  function StrippedSize(n: nat): nat {
    (4 * n + 2) / 3
  }

  /** Stripping the padding loses nothing, for all three residues of the length. */
  lemma RepadStripped(raw: bytes)
    requires raw != []
    ensures Repad(StripPadding(EncodePadded(raw))) == EncodePadded(raw)
    ensures |StripPadding(EncodePadded(raw))| == StrippedSize(|raw|)
  {
    hide EncodePadded, DecodePadded, StripPadding, StrippedSize, Repad;
    DecodeEncodePadded(raw);
    var body, pad := PaddingOf(raw);
    StripOnce(body, pad);
    StrippedLength(|raw|, pad, |body|);
    RepadBody(body, pad);
  }

  // ---------------------------------------------------------------- what decodes

  const UPPER := "ABCDEFGHIJKLMNOPQRSTUVWXYZ"
  const LOWER := "abcdefghijklmnopqrstuvwxyz"
  const OTHERS := "0123456789-_"

  /** The alphabet by position (RFC 4648, table 2). */
  lemma SextetAlphabet(v: nat)
    requires v < 64
    ensures SextetChar(v) == (UPPER + LOWER + OTHERS)[v]
  {
    if v < 26 {
      assert UPPER[v] == SextetChar(v);
    } else if v < 52 {
      assert LOWER[v - 26] == SextetChar(v);
    } else {
      assert OTHERS[v - 52] == SextetChar(v);
    }
  }

  /** `c` stands for the sextet `v`; the decoder also takes the last two characters of the other alphabet. */
  predicate Denotes(c: char, v: nat) {
    v < 64 && (c == SextetChar(v) || (c == '+' && v == 62) || (c == '/' && v == 63))
  }

  lemma SextetMeans(c: char, v: nat)
    ensures CharSextet(c) == Some(v) <==> Denotes(c, v)
  {
    if v < 64 {
      SextetRoundTrip(v);
    }
  }

  /** The four sextets of a group, read as one number, are its three bytes read as one number. */
  lemma GroupNumber(b0: byte, b1: byte, b2: byte) returns (s0: nat, s1: nat, s2: nat, s3: nat)
    ensures s0 < 64 && s1 < 64 && s2 < 64 && s3 < 64
    ensures Group(b0 as nat, b1 as nat, b2 as nat) == [SextetChar(s0), SextetChar(s1), SextetChar(s2), SextetChar(s3)]
    ensures ((s0 * 64 + s1) * 64 + s2) * 64 + s3 == (b0 as nat * 256 + b1 as nat) * 256 + b2 as nat
  {
    hide SextetChar;
    s0, s1 := b0 as nat / 4, b0 as nat % 4 * 16 + b1 as nat / 16;
    s2, s3 := b1 as nat % 16 * 4 + b2 as nat / 64, b2 as nat % 64;
  }

  /** How many values of the low bits of character `i` make no difference, before padding. */
  function Ignored(code: string, i: nat): (n: nat)
    requires i < |code|
    ensures n > 0
  {
    if i + 1 < |code| && code[i + 1] == '=' then (if i + 2 < |code| && code[i + 2] == '=' then 16 else 4) else 1
  }

  /** At position `i` both are padding, or stand for sextets that agree in the bits that count. */
  ghost predicate SameAt(text: string, code: string, i: nat)
    requires i < |text| == |code|
  {
    if code[i] == '=' then text[i] == '='
    else exists v: nat, w: nat | Denotes(text[i], v) && Denotes(code[i], w) ::
           v / Ignored(code, i) == w / Ignored(code, i)
  }

  ghost predicate SameBits(text: string, code: string) {
    |text| == |code| && forall i | 0 <= i < |text| :: SameAt(text, code, i)
  }

  lemma SameAtMeans(text: string, code: string, i: nat)
    requires i < |text| == |code| && code[i] != '='
    ensures SameAt(text, code, i) <==>
            && CharSextet(text[i]).Some? && CharSextet(code[i]).Some?
            && CharSextet(text[i]).value / Ignored(code, i) == CharSextet(code[i]).value / Ignored(code, i)
  {
    hide CharSextet, Denotes, Ignored;
    if CharSextet(text[i]).Some? && CharSextet(code[i]).Some? {
      SextetMeans(text[i], CharSextet(text[i]).value);
      SextetMeans(code[i], CharSextet(code[i]).value);
    }
    if SameAt(text, code, i) {
      var v: nat, w: nat :|
        Denotes(text[i], v) && Denotes(code[i], w) && v / Ignored(code, i) == w / Ignored(code, i);
      SextetMeans(text[i], v);
      SextetMeans(code[i], w);
    }
  }

  /** The sextets of three bytes. */
  lemma GroupValues(b0: byte, b1: byte, b2: byte)
    ensures var g := Group(b0 as nat, b1 as nat, b2 as nat);
            && (forall i | 0 <= i < 4 :: g[i] != '=')
            && CharSextet(g[0]) == Some(b0 as nat / 4) && CharSextet(g[1]) == Some(b0 as nat % 4 * 16 + b1 as nat / 16)
            && CharSextet(g[2]) == Some(b1 as nat % 16 * 4 + b2 as nat / 64) && CharSextet(g[3]) == Some(b2 as nat % 64)
  {
    hide SextetChar, CharSextet;
    SextetRoundTrip(b0 as nat / 4);
    SextetRoundTrip(b0 as nat % 4 * 16 + b1 as nat / 16);
    SextetRoundTrip(b1 as nat % 16 * 4 + b2 as nat / 64);
    SextetRoundTrip(b2 as nat % 64);
  }

  /** Joining sextets gives exactly the bytes whose sextets they are. */
  lemma JoinIff(v0: nat, v1: nat, v2: nat, v3: nat, b0: byte, b1: byte, b2: byte)
    requires v0 < 64 && v1 < 64 && v2 < 64 && v3 < 64
    ensures JoinSextets(v0, v1, v2, v3) == (b0, b1, b2) <==>
            && v0 == b0 as nat / 4 && v1 == b0 as nat % 4 * 16 + b1 as nat / 16
            && v2 == b1 as nat % 16 * 4 + b2 as nat / 64 && v3 == b2 as nat % 64
  {
  }

  /** The same before padding, where the low bits of the last sextet are left over. */
  lemma JoinPaddedIff(v0: nat, v1: nat, v2: nat, b0: byte, b1: byte)
    requires v0 < 64 && v1 < 64 && v2 < 64
    ensures JoinSextets(v0, v1, 0, 0).0 == b0 <==> v0 == b0 as nat / 4 && v1 / 16 == b0 as nat % 4
    ensures JoinSextets(v0, v1, v2, 0).0 == b0 && JoinSextets(v0, v1, v2, 0).1 == b1 <==>
            && v0 == b0 as nat / 4 && v1 == b0 as nat % 4 * 16 + b1 as nat / 16 && v2 / 4 == b1 as nat % 16
  {
  }

  /** What the padding leaves over of the last sextet of a code. */
  lemma PaddedSextets(b: byte)
    ensures (b as nat % 4 * 16 + 0 / 16) / 16 == b as nat % 4 && (b as nat % 16 * 4 + 0 / 64) / 4 == b as nat % 16
  {
  }

  lemma FirstOfCode(raw: bytes)
    requires raw != []
    ensures |EncodePadded(raw)| >= 4 && EncodePadded(raw)[0] != '='
  {
    hide CharSextet;
    GroupSextets(raw[0], if |raw| > 1 then raw[1] else 0, if |raw| > 2 then raw[2] else 0);
    hide Group;
  }

  /** A first group without padding can be compared on its own. */
  lemma {:induction false} SameBitsSplit(text: string, group: string, code: string)
    requires |group| == 4 && (forall i | 0 <= i < 4 :: group[i] != '=') && (code != "" ==> code[0] != '=')
    ensures SameBits(text, group + code) <==> |text| >= 4 && SameBits(text[..4], group) && SameBits(text[4..], code)
  {
    hide Denotes;
    var whole := group + code;
    if |text| == |whole| {
      forall i | 0 <= i < 4
        ensures Ignored(whole, i) == 1 && (SameAt(text, whole, i) <==> SameAt(text[..4], group, i))
      {
      }
      forall i | 0 <= i < |code|
        ensures SameAt(text, whole, 4 + i) <==> SameAt(text[4..], code, i)
      {
        assert Ignored(whole, 4 + i) == Ignored(code, i);
      }
      hide SameAt;
      if SameBits(text, whole) {
        forall i | 0 <= i < |code| ensures SameAt(text[4..], code, i) { assert SameAt(text, whole, 4 + i); }
      }
      if SameBits(text[..4], group) && SameBits(text[4..], code) {
        forall i | 0 <= i < |text|
          ensures SameAt(text, whole, i)
        {
          if i >= 4 {
            assert SameAt(text[4..], code, i - 4);
          }
        }
      }
    }
  }

  /** The four characters that decode to one byte. */
  lemma OneDecodes(text: string, b0: byte)
    requires |text| % 4 == 0
    ensures DecodePadded(text) == Some([b0]) <==> SameBits(text, EncodePadded([b0]))
  {
    hide CharSextet, SameAt;
    var code := EncodePadded([b0]);
    GroupValues(b0, 0, 0);
    hide Group;
    assert |code| == 4 && code[2] == '=' && code[3] == '=';
    if |text| == 4 {
      SameAtMeans(text, code, 0);
      SameAtMeans(text, code, 1);
      PaddingAt(text, code, 2);
      PaddingAt(text, code, 3);
      PaddedSextets(b0);
      var v0, v1 := CharSextet(text[0]), CharSextet(text[1]);
      if v0.Some? && v1.Some? {
        JoinPaddedIff(v0.value, v1.value, 0, b0, 0);
      }
      hide JoinSextets;
      assert SameBits(text, code) <==>
             SameAt(text, code, 0) && SameAt(text, code, 1) && SameAt(text, code, 2) && SameAt(text, code, 3);
    }
  }

  lemma PaddingAt(text: string, code: string, i: nat)
    requires i < |text| == |code| && code[i] == '='
    ensures SameAt(text, code, i) <==> text[i] == '='
  {
  }

  lemma TwoDecode(text: string, b0: byte, b1: byte)
    requires |text| % 4 == 0
    ensures DecodePadded(text) == Some([b0, b1]) <==> SameBits(text, EncodePadded([b0, b1]))
  {
    hide CharSextet, SameAt;
    var code := EncodePadded([b0, b1]);
    GroupValues(b0, b1, 0);
    hide Group;
    assert |code| == 4 && code[2] != '=' && code[3] == '=';
    if |text| == 4 {
      SameAtMeans(text, code, 0);
      SameAtMeans(text, code, 1);
      SameAtMeans(text, code, 2);
      PaddingAt(text, code, 3);
      NotPadding(text[2]);
      PaddedSextets(b1);
      var v0, v1, v2 := CharSextet(text[0]), CharSextet(text[1]), CharSextet(text[2]);
      if v0.Some? && v1.Some? && v2.Some? {
        JoinPaddedIff(v0.value, v1.value, v2.value, b0, b1);
      }
      hide JoinSextets;
      assert SameBits(text, code) <==>
             SameAt(text, code, 0) && SameAt(text, code, 1) && SameAt(text, code, 2) && SameAt(text, code, 3);
    }
  }

  lemma NotPadding(c: char)
    ensures CharSextet(c).Some? ==> c != '='
  {
  }

  /** A full group of four characters stands for three bytes. */
  lemma GroupDecodes(text: string, b0: byte, b1: byte, b2: byte)
    requires |text| == 4
    ensures var v := seq(4, i requires 0 <= i < 4 => CharSextet(text[i]));
            SameBits(text, Group(b0 as nat, b1 as nat, b2 as nat)) <==>
            && v[0].Some? && v[1].Some? && v[2].Some? && v[3].Some?
            && JoinSextets(v[0].value, v[1].value, v[2].value, v[3].value) == (b0, b1, b2)
  {
    hide CharSextet, SameAt;
    var code := Group(b0 as nat, b1 as nat, b2 as nat);
    GroupValues(b0, b1, b2);
    hide Group;
    SameAtMeans(text, code, 0);
    SameAtMeans(text, code, 1);
    SameAtMeans(text, code, 2);
    SameAtMeans(text, code, 3);
    assert SameBits(text, code) <==>
           SameAt(text, code, 0) && SameAt(text, code, 1) && SameAt(text, code, 2) && SameAt(text, code, 3);
    var v := seq(4, i requires 0 <= i < 4 => CharSextet(text[i]));
    if v[0].Some? && v[1].Some? && v[2].Some? && v[3].Some? {
      JoinIff(v[0].value, v[1].value, v[2].value, v[3].value, b0, b1, b2);
    }
    hide JoinSextets;
  }

  /** How decoding goes on behind a full group. */
  lemma DecodeUnfold(text: string, raw: bytes)
    requires |text| % 4 == 0 && |text| >= 4 && |raw| >= 3
    ensures var v := seq(4, i requires 0 <= i < 4 => CharSextet(text[i]));
            DecodePadded(text) == Some(raw) <==>
            && v[0].Some? && v[1].Some? && v[2].Some? && v[3].Some?
            && JoinSextets(v[0].value, v[1].value, v[2].value, v[3].value) == (raw[0], raw[1], raw[2])
            && DecodePadded(text[4..]) == Some(raw[3..])
  {
    hide CharSextet, JoinSextets;
    NotPadding(text[2]);
    NotPadding(text[3]);
    assert raw == [raw[0], raw[1], raw[2]] + raw[3..];
  }

  /**
   * What a text decodes to, exactly: the bytes whose encoding has its length, its padding, and its sextets up to the
   * bits that padding leaves over; every other text is refused.
   */
  lemma {:induction false} DecodesIff(text: string, raw: bytes)
    requires |text| % 4 == 0
    ensures DecodePadded(text) == Some(raw) <==> SameBits(text, EncodePadded(raw))
    decreases |raw|
  {
    hide CharSextet, SameAt, Group, JoinSextets;
    if |raw| == 1 {
      assert raw == [raw[0]];
      OneDecodes(text, raw[0]);
    } else if |raw| == 2 {
      assert raw == [raw[0], raw[1]];
      TwoDecode(text, raw[0], raw[1]);
    } else if |raw| >= 3 {
      var group, code := Group(raw[0] as nat, raw[1] as nat, raw[2] as nat), EncodePadded(raw[3..]);
      GroupValues(raw[0], raw[1], raw[2]);
      if raw[3..] != [] {
        FirstOfCode(raw[3..]);
      }
      SameBitsSplit(text, group, code);
      assert EncodePadded(raw) == group + code;
      if |text| >= 4 {
        DecodesIff(text[4..], raw[3..]);
        GroupDecodes(text[..4], raw[0], raw[1], raw[2]);
        DecodeUnfold(text, raw);
      }
      hide EncodePadded, DecodePadded;
    }
  }
}
