/**
 * The content preview of a post card (src/components/PostCard.tsx): content
 * longer than 200 is cut to its first 200 and marked with `...`.
 *
 * JavaScript measures and cuts strings in UTF-16 code units, while a Dafny
 * `string` holds Unicode scalar values. The preview therefore works on the
 * UTF-16 encoding of the content: a character above U+FFFF counts twice, and
 * a cut may fall between the two halves of its surrogate pair.
 */
module PostCard {
  import opened Types

  /** One UTF-16 code unit. */
  newtype CodeUnit = x: int | 0 <= x < 0x1_0000

  /** The longest content, in code units, shown in full. */
  const PreviewLength: nat := 200

  /** The marker appended to cut content: three full stops. */
  const Ellipsis: seq<CodeUnit> := [0x2E, 0x2E, 0x2E]

  predicate IsHighSurrogate(u: CodeUnit) { 0xD800 <= u < 0xDC00 }
  predicate IsLowSurrogate(u: CodeUnit) { 0xDC00 <= u < 0xE000 }

  /** The code units of one character: itself below U+10000, otherwise a surrogate pair. */
  function EncodeChar(c: char): (r: seq<CodeUnit>)
    ensures 1 <= |r| <= 2
    ensures |r| == 1 <==> (c as int) < 0x1_0000
    ensures |r| == 1 ==> !IsHighSurrogate(r[0]) && !IsLowSurrogate(r[0])
    ensures |r| == 2 ==> IsHighSurrogate(r[0]) && IsLowSurrogate(r[1])
  {
    var v := c as int;
    if v < 0x1_0000 then [v as CodeUnit]
    else
      var w := v - 0x1_0000;
      assert w / 0x400 < 0x400;
      [(0xD800 + w / 0x400) as CodeUnit, (0xDC00 + w % 0x400) as CodeUnit]
  }

  /** The string as JavaScript stores it. */
  function Utf16(s: string): (r: seq<CodeUnit>)
    ensures |r| >= |s|
    decreases |s|
  {
    if s == [] then [] else EncodeChar(s[0]) + Utf16(s[1..])
  }

  /** Reads well-formed UTF-16 back into characters; a lone surrogate is `None`. */
  function Decode(u: seq<CodeUnit>): Option<string>
    decreases |u|
  {
    if u == [] then Some([])
    else if IsLowSurrogate(u[0]) then None
    else if IsHighSurrogate(u[0]) then
      if |u| < 2 || !IsLowSurrogate(u[1]) then None
      else
        var v := 0x1_0000 + (u[0] as int - 0xD800) * 0x400 + (u[1] as int - 0xDC00);
        match Decode(u[2..])
        case None => None
        case Some(rest) => Some([v as char] + rest)
    else
      match Decode(u[1..])
      case None => None
      case Some(rest) => Some([u[0] as int as char] + rest)
  }

  /** A surrogate pair recombines to the character it encodes. */
  lemma PairRecombines(c: char)
    requires (c as int) >= 0x1_0000
    ensures 0x1_0000 + (EncodeChar(c)[0] as int - 0xD800) * 0x400 + (EncodeChar(c)[1] as int - 0xDC00) == c as int
  {
    var w := c as int - 0x1_0000;
    assert w == (w / 0x400) * 0x400 + w % 0x400;
  }

  /** Encoding loses nothing: decoding the code units gives the string back. */
  lemma {:induction false} Utf16RoundTrip(s: string)
    ensures Decode(Utf16(s)) == Some(s)
    decreases |s|
  {
    if s != [] {
      Utf16RoundTrip(s[1..]);
      var e := EncodeChar(s[0]);
      var u := Utf16(s);
      assert u == e + Utf16(s[1..]);
      if |e| == 2 {
        PairRecombines(s[0]);
        assert u[0] == e[0] && u[1] == e[1];
        assert u[2..] == Utf16(s[1..]);
        var v := 0x1_0000 + (u[0] as int - 0xD800) * 0x400 + (u[1] as int - 0xDC00);
        assert v as char == s[0];
        assert Decode(u) == Some([v as char] + s[1..]);
      } else {
        assert u[0] == e[0] && e[0] as int == s[0] as int;
        assert u[0] as int as char == s[0];
        assert u[1..] == Utf16(s[1..]);
        assert Decode(u) == Some([u[0] as int as char] + s[1..]);
      }
      assert [s[0]] + s[1..] == s;
    }
  }

  /** Encoding a concatenation encodes each part. */
  lemma {:induction false} Utf16Append(a: string, b: string)
    ensures Utf16(a + b) == Utf16(a) + Utf16(b)
    decreases |a|
  {
    if a != [] {
      Utf16Append(a[1..], b);
      var e := EncodeChar(a[0]);
      assert (a + b)[0] == a[0] && (a + b)[1..] == a[1..] + b;
      assert Utf16(a + b) == e + Utf16(a[1..] + b);
      assert e + (Utf16(a[1..]) + Utf16(b)) == (e + Utf16(a[1..])) + Utf16(b);
    } else {
      assert a + b == b;
    }
  }

  /** `truncatedContent`, on the content's code units. */
  function TruncatedContent(content: seq<CodeUnit>): (r: seq<CodeUnit>)
    ensures |content| <= PreviewLength ==> r == content
    ensures |content| > PreviewLength ==> |r| == PreviewLength + |Ellipsis| && r[PreviewLength..] == Ellipsis
    ensures |r| <= PreviewLength + |Ellipsis|
    ensures var n := if |content| <= PreviewLength then |content| else PreviewLength;
            n <= |r| && r[..n] == content[..n]
  {
    if |content| > PreviewLength then content[..PreviewLength] + Ellipsis else content
  }

  /** The preview of a post's content. */
  function Preview(content: string): seq<CodeUnit> {
    TruncatedContent(Utf16(content))
  }

  /** Content of at most 200 code units is shown in full: the preview reads back as the content. */
  lemma ShortPreviewShowsAll(content: string)
    ensures |Utf16(content)| <= PreviewLength ==> Decode(Preview(content)) == Some(content)
  {
    Utf16RoundTrip(content);
  }

  /**
   * A preview shown as content is shown unchanged: cut content has 203 code
   * units, whose first 200 are kept and whose last 3 are the marker again.
   */
  lemma TruncateIdempotent(content: seq<CodeUnit>)
    ensures TruncatedContent(TruncatedContent(content)) == TruncatedContent(content)
  {
    var r := TruncatedContent(content);
    if |content| > PreviewLength {
      assert r[..PreviewLength] + r[PreviewLength..] == r;
    }
  }

  /**
   * Truncation forgets exactly the tail: two long contents get the same
   * preview if and only if their first 200 code units agree, and a short
   * content's preview determines it.
   */
  lemma TruncateForgetsTail(a: seq<CodeUnit>, b: seq<CodeUnit>)
    ensures |a| > PreviewLength && |b| > PreviewLength ==>
              (TruncatedContent(a) == TruncatedContent(b) <==> a[..PreviewLength] == b[..PreviewLength])
    ensures |a| <= PreviewLength && |b| <= PreviewLength ==>
              (TruncatedContent(a) == TruncatedContent(b) <==> a == b)
  {
    if |a| > PreviewLength && |b| > PreviewLength && TruncatedContent(a) == TruncatedContent(b) {
      assert TruncatedContent(a)[..PreviewLength] == a[..PreviewLength];
    }
  }

  /** `n` copies of a character above U+FFFF take `2 * n` code units. */
  lemma {:induction false} AstralLength(c: char, n: nat)
    requires (c as int) >= 0x1_0000
    ensures |Utf16(seq(n, _ => c))| == 2 * n
    decreases n
  {
    if n > 0 {
      var s := seq(n, _ => c);
      assert s[1..] == seq(n - 1, _ => c);
      AstralLength(c, n - 1);
    }
  }

  /** The unit test's 300 `a`s give 200 `a`s followed by the marker. */
  lemma LongContentExample()
    ensures Preview(seq(300, _ => 'a')) == Utf16(seq(200, _ => 'a')) + Ellipsis
  {
    var a200 := seq(200, _ => 'a');
    var a100 := seq(100, _ => 'a');
    assert seq(300, _ => 'a') == a200 + a100;
    Utf16Append(a200, a100);
    BmpLength('a', 200);
    BmpLength('a', 100);
  }

  /** `n` copies of a character below U+10000 take `n` code units. */
  lemma {:induction false} BmpLength(c: char, n: nat)
    requires (c as int) < 0x1_0000
    ensures |Utf16(seq(n, _ => c))| == n
    decreases n
  {
    if n > 0 {
      var s := seq(n, _ => c);
      assert s[1..] == seq(n - 1, _ => c);
      BmpLength(c, n - 1);
    }
  }

  /**
   * 150 emoji are 300 code units, so the card cuts them: it shows the first
   * 100 emoji followed by the marker.
   */
  lemma EmojiContentExample()
    ensures |Utf16(seq(150, _ => '\U{1F600}'))| == 300
    ensures Preview(seq(150, _ => '\U{1F600}')) == Utf16(seq(100, _ => '\U{1F600}')) + Ellipsis
  {
    var e100 := seq(100, _ => '\U{1F600}');
    var e50 := seq(50, _ => '\U{1F600}');
    assert seq(150, _ => '\U{1F600}') == e100 + e50;
    Utf16Append(e100, e50);
    AstralLength('\U{1F600}', 100);
    AstralLength('\U{1F600}', 50);
  }

  /**
   * With one `a` in front of the emoji the cut falls inside a surrogate pair:
   * the preview keeps a lone high surrogate before the marker and is no
   * longer well-formed UTF-16.
   */
  lemma SplitPairExample()
    ensures var p := Preview(['a'] + seq(150, _ => '\U{1F600}'));
            |p| == PreviewLength + |Ellipsis| && IsHighSurrogate(p[PreviewLength - 1]) && Decode(p) == None
  {
    var s := ['a'] + seq(150, _ => '\U{1F600}');
    var e99 := seq(99, _ => '\U{1F600}');
    var e51 := seq(51, _ => '\U{1F600}');
    assert s == (['a'] + e99) + e51;
    Utf16Append(['a'] + e99, e51);
    Utf16Append(['a'], e99);
    AstralLength('\U{1F600}', 99);
    AstralLength('\U{1F600}', 51);
    var u := Utf16(s);
    var head := Utf16(['a'] + e99);
    assert |head| == 199;
    assert u[199] == Utf16(e51)[0];
    assert e51 == ['\U{1F600}'] + e51[1..];
    Utf16Append(['\U{1F600}'], e51[1..]);
    assert IsHighSurrogate(u[199]);
    var p := Preview(s);
    assert p == u[..200] + Ellipsis;
    assert p[199] == u[199];
    assert u[..200] == head + [u[199]];
    DecodeStuck(head, u[199]);
  }

  /** Decoding fails at a high surrogate followed by the marker. */
  lemma {:induction false} DecodeStuck(head: seq<CodeUnit>, hi: CodeUnit)
    requires IsHighSurrogate(hi)
    ensures Decode(head + [hi] + Ellipsis) == None
    decreases |head|
  {
    if head == [] {
      assert [] + [hi] + Ellipsis == [hi] + Ellipsis;
    } else {
      assert (head + [hi] + Ellipsis)[1..] == head[1..] + [hi] + Ellipsis;
      if |head| >= 2 {
        assert (head + [hi] + Ellipsis)[2..] == head[2..] + [hi] + Ellipsis;
      }
      DecodeStuck(head[1..], hi);
      if |head| >= 2 {
        DecodeStuck(head[2..], hi);
      }
    }
  }
}
