/** The cursor codec: unpadded base64 with the URL and filename safe alphabet, sections 3.2 and 5 of
    RFC 4648. */
module Base64Url {
  import opened Common

  newtype Byte = x: int | 0 <= x < 256

  /** The alphabet of section 5. */
  function CharOf(v: int): char
    requires 0 <= v < 64
  {
    if v < 26 then ('A' as int + v) as char
    else if v < 52 then ('a' as int + (v - 26)) as char
    else if v < 62 then ('0' as int + (v - 52)) as char
    else if v == 62 then '-'
    else '_'
  }

  function ValueOf(c: char): (r: Option<int>)
    ensures r.Some? ==> 0 <= r.value < 64
  {
    if 'A' <= c <= 'Z' then Some(c as int - 'A' as int)
    else if 'a' <= c <= 'z' then Some(c as int - 'a' as int + 26)
    else if '0' <= c <= '9' then Some(c as int - '0' as int + 52)
    else if c == '-' then Some(62)
    else if c == '_' then Some(63)
    else None
  }

  lemma CharsReadBack(v: int)
    requires 0 <= v < 64
    ensures ValueOf(CharOf(v)) == Some(v) && CharOf(v) != '='
  {
  }

  /** The four characters of three octets; missing octets give padding. */
  function Quad(a: Byte, b: Option<Byte>, c: Option<Byte>): string {
    var second := if b.Some? then b.value as int else 0;
    var third := if c.Some? then c.value as int else 0;
    [CharOf(a as int / 4),
     CharOf(a as int % 4 * 16 + second / 16),
     if b.None? then '=' else CharOf(second % 16 * 4 + third / 64),
     if c.None? then '=' else CharOf(third % 64)]
  }

  /** `urlsafe_b64encode`, padded. */
  function EncodePadded(data: seq<Byte>): string {
    if data == [] then ""
    else if |data| == 1 then Quad(data[0], None, None)
    else if |data| == 2 then Quad(data[0], Some(data[1]), None)
    else Quad(data[0], Some(data[1]), Some(data[2])) + EncodePadded(data[3..])
  }

  /** `rstrip("=")`. */
  function Strip(s: string): string {
    if s == [] || s[|s| - 1] != '=' then s else Strip(s[..|s| - 1])
  }

  function Repeat(c: char, n: nat): (r: string)
    ensures |r| == n && forall i :: 0 <= i < n ==> r[i] == c
  {
    if n == 0 then "" else Repeat(c, n - 1) + [c]
  }

  /** The cursor as handed out. */
  function Encode(data: seq<Byte>): string {
    Strip(EncodePadded(data))
  }

  /** `cursor + "=" * (-len(cursor) % 4)`. */
  function Pad(s: string): string {
    s + Repeat('=', (4 - |s| % 4) % 4)
  }

  /** The octets of one quad; None where it is not one. */
  function OctetsOf(s: string): Option<seq<Byte>>
    requires |s| == 4
  {
    var v, w := ValueOf(s[0]), ValueOf(s[1]);
    if v.None? || w.None? then None
    else
      var first := (v.value * 4 + w.value / 16) as Byte;
      if s[2] == '=' && s[3] == '=' then Some([first])
      else
        var x := ValueOf(s[2]);
        if x.None? then None
        else
          var second := (w.value % 16 * 16 + x.value / 4) as Byte;
          if s[3] == '=' then Some([first, second])
          else
            var y := ValueOf(s[3]);
            if y.None? then None else Some([first, second, (x.value % 4 * 64 + y.value) as Byte])
  }

  /** `urlsafe_b64decode` of padded text over the alphabet. */
  function DecodePadded(s: string): Option<seq<Byte>> {
    if s == [] then Some([])
    else if |s| < 4 then None
    else
      match (OctetsOf(s[..4]), DecodePadded(s[4..]))
      case (Some(head), Some(tail)) => Some(head + tail)
      case _ => None
  }

  function Decode(cursor: string): Option<seq<Byte>> {
    DecodePadded(Pad(cursor))
  }

  // ---------------------------------------------------------------- the round trip

  /** Four sextets carry three octets. */
  lemma SextetsCarryOctets(a: int, b: int, c: int)
    requires 0 <= a < 256 && 0 <= b < 256 && 0 <= c < 256
    ensures var v, w, x, y := a / 4, a % 4 * 16 + b / 16, b % 16 * 4 + c / 64, c % 64;
            && 0 <= v < 64 && 0 <= w < 64 && 0 <= x < 64 && 0 <= y < 64
            && v * 4 + w / 16 == a && w % 16 * 16 + x / 4 == b && x % 4 * 64 + y == c
  {
  }

  lemma QuadReadsBack(a: Byte, b: Option<Byte>, c: Option<Byte>)
    requires c.Some? ==> b.Some?
    ensures OctetsOf(Quad(a, b, c)) == Some([a] + (if b.Some? then [b.value] else []) + if c.Some? then [c.value] else [])
  {
    var second := if b.Some? then b.value as int else 0;
    var third := if c.Some? then c.value as int else 0;
    SextetsCarryOctets(a as int, second, third);
    CharsReadBack(a as int / 4);
    CharsReadBack(a as int % 4 * 16 + second / 16);
    CharsReadBack(second % 16 * 4 + third / 64);
    CharsReadBack(third % 64);
    OctetsListed(a, b, c);
  }

  lemma OctetsListed(a: Byte, b: Option<Byte>, c: Option<Byte>)
    requires c.Some? ==> b.Some?
    ensures [a] + (if b.Some? then [b.value] else []) + (if c.Some? then [c.value] else [])
            == if b.None? then [a] else if c.None? then [a, b.value] else [a, b.value, c.value]
  {
  }

  lemma LastQuad(q: string, data: seq<Byte>)
    requires |q| == 4 && OctetsOf(q).Some? && OctetsOf(q).value == data
    ensures DecodePadded(q) == Some(data)
  {
    assert q[..4] == q && q[4..] == [];
    var none: seq<Byte> := [];
    assert DecodePadded(q[4..]) == Some(none) && data + none == data;
  }

  lemma {:induction false} PaddedRoundTrip(data: seq<Byte>)
    ensures DecodePadded(EncodePadded(data)) == Some(data)
  {
    if |data| >= 3 {
      var head := Quad(data[0], Some(data[1]), Some(data[2]));
      QuadReadsBack(data[0], Some(data[1]), Some(data[2]));
      PaddedRoundTrip(data[3..]);
      assert EncodePadded(data)[..4] == head && EncodePadded(data)[4..] == EncodePadded(data[3..]);
      assert [data[0]] + [data[1]] + [data[2]] == [data[0], data[1], data[2]];
      assert data == [data[0], data[1], data[2]] + data[3..];
    } else if |data| == 2 {
      QuadReadsBack(data[0], Some(data[1]), None);
      LastQuad(EncodePadded(data), data);
    } else if |data| == 1 {
      QuadReadsBack(data[0], None, None);
      LastQuad(EncodePadded(data), data);
    }
  }

  /** Padding comes in at most two characters, and only at the end of a multiple of four. */
  predicate WellPadded(s: string) {
    |s| % 4 == 0 && (s != [] ==> |s| >= 4 && s[|s| - 3] != '=' && (s[|s| - 2] == '=' ==> s[|s| - 1] == '='))
  }

  lemma PrependQuad(head: string, tail: string)
    requires |head| == 4 && head[1] != '=' && (head[2] == '=' ==> head[3] == '=') && WellPadded(tail)
    ensures WellPadded(head + tail)
  {
    if tail == [] {
      assert head + tail == head;
    }
  }

  lemma {:induction false} PaddedShape(data: seq<Byte>)
    ensures WellPadded(EncodePadded(data))
  {
    if |data| >= 3 {
      PaddedShape(data[3..]);
      QuadPadding(data[0], Some(data[1]), Some(data[2]));
      PrependQuad(Quad(data[0], Some(data[1]), Some(data[2])), EncodePadded(data[3..]));
    } else if |data| == 2 {
      QuadPadding(data[0], Some(data[1]), None);
    } else if |data| == 1 {
      QuadPadding(data[0], None, None);
    }
  }

  lemma QuadPadding(a: Byte, b: Option<Byte>, c: Option<Byte>)
    requires c.Some? ==> b.Some?
    ensures var q := Quad(a, b, c);
            |q| == 4 && q[1] != '=' && (q[2] == '=' <==> b.None?) && (q[3] == '=' <==> c.None?)
  {
    var second := if b.Some? then b.value as int else 0;
    var third := if c.Some? then c.value as int else 0;
    CharsReadBack(a as int % 4 * 16 + second / 16);
    CharsReadBack(second % 16 * 4 + third / 64);
    CharsReadBack(third % 64);
  }

  lemma PadAdds(s: string, k: nat)
    requires k <= 2 && (|s| + k) % 4 == 0
    ensures Pad(s) == s + Repeat('=', k)
  {
  }

  lemma StripTakes(s: string, k: nat)
    requires k <= 2 && k < |s| && s[|s| - k - 1] != '=' && forall i :: |s| - k <= i < |s| ==> s[i] == '='
    ensures Strip(s) == s[..|s| - k]
    decreases k
  {
    if k > 0 {
      var t := s[..|s| - 1];
      StripTakes(t, k - 1);
      assert t[..|t| - (k - 1)] == s[..|s| - k];
    } else {
      assert s[..|s|] == s;
    }
  }

  lemma Refilled(s: string, k: nat)
    requires k <= |s| && forall i :: |s| - k <= i < |s| ==> s[i] == '='
    ensures s == s[..|s| - k] + Repeat('=', k)
  {
  }

  /** How many characters of padding there are. */
  function PaddingOf(s: string): (k: nat)
    requires WellPadded(s)
    ensures k <= 2 && k <= |s| && forall i :: |s| - k <= i < |s| ==> s[i] == '='
    ensures s != [] ==> k < |s| && s[|s| - k - 1] != '='
  {
    if s == [] || s[|s| - 1] != '=' then 0 else if s[|s| - 2] != '=' then 1 else 2
  }

  /** Stripping the padding and adding it again gives the padded text back. */
  lemma PadUndoesStrip(s: string)
    requires WellPadded(s)
    ensures Pad(Strip(s)) == s
  {
    var k := PaddingOf(s);
    Refilled(s, k);
    PadAdds(s[..|s| - k], k);
    if s != [] {
      StripTakes(s, k);
    }
  }

  /** The unpadded cursor decodes to the bytes it was made from. */
  lemma CursorRoundTrip(data: seq<Byte>)
    ensures Decode(Encode(data)) == Some(data)
  {
    PaddedShape(data);
    PadUndoesStrip(EncodePadded(data));
    PaddedRoundTrip(data);
  }

  /** A cursor contains only the safe alphabet: no padding needs escaping in a query string. */
  lemma {:induction false} CursorIsSafe(data: seq<Byte>)
    ensures forall c :: c in Encode(data) ==> ValueOf(c).Some?
  {
    PaddedShape(data);
    InteriorIsSafe(data);
    StripIsPrefix(EncodePadded(data));
  }

  /** Every character is of the alphabet, but for the padding of the last two. */
  lemma {:induction false} InteriorIsSafe(data: seq<Byte>)
    ensures forall k :: 0 <= k < |EncodePadded(data)| ==>
              var c := EncodePadded(data)[k]; ValueOf(c).Some? || (c == '=' && k >= |EncodePadded(data)| - 2)
  {
    if |data| >= 3 {
      InteriorIsSafe(data[3..]);
      QuadIsSafe(data[0], Some(data[1]), Some(data[2]));
    } else if |data| == 2 {
      QuadIsSafe(data[0], Some(data[1]), None);
    } else if |data| == 1 {
      QuadIsSafe(data[0], None, None);
    }
  }

  lemma QuadIsSafe(a: Byte, b: Option<Byte>, c: Option<Byte>)
    requires c.Some? ==> b.Some?
    ensures forall k :: 0 <= k < 4 ==> ValueOf(Quad(a, b, c)[k]).Some? || (Quad(a, b, c)[k] == '=' && ((k == 3 && c.None?) || (k == 2 && b.None?)))
  {
    var second := if b.Some? then b.value as int else 0;
    var third := if c.Some? then c.value as int else 0;
    CharsReadBack(a as int / 4);
    CharsReadBack(a as int % 4 * 16 + second / 16);
    CharsReadBack(second % 16 * 4 + third / 64);
    CharsReadBack(third % 64);
  }

  lemma {:induction false} StripIsPrefix(s: string)
    ensures Strip(s) <= s && (Strip(s) != [] ==> Strip(s)[|Strip(s)| - 1] != '=')
  {
    if s != [] && s[|s| - 1] == '=' {
      StripIsPrefix(s[..|s| - 1]);
    }
  }

  /** The three lengths of a final group, as in the test vectors of section 10, and the two characters in
      which this alphabet differs from the other one of the standard. */
  lemma KnownEncodings()
    ensures EncodePadded([0x66]) == "Zg==" && EncodePadded([0x66, 0x6F]) == "Zm8=" && EncodePadded([0x66, 0x6F, 0x6F]) == "Zm9v"
    ensures EncodePadded([0xFB, 0xF0, 0x3F]) == "-_A_"
  {
    var three: seq<Byte> := [0x66, 0x6F, 0x6F];
    assert three[3..] == [] && Quad(0x66, Some(0x6F), Some(0x6F)) == "Zm9v";
    var last: seq<Byte> := [0xFB, 0xF0, 0x3F];
    assert last[3..] == [] && Quad(0xFB, Some(0xF0), Some(0x3F)) == "-_A_";
  }
}
