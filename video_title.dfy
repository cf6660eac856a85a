/**
  The in-scene title of the playing video. A .NET string is a sequence of
  UTF-16 code units, and `Length` and `Substring` count and cut code units,
  so the title is modelled as code units: a character outside the Basic
  Multilingual Plane (an emoji, say) takes two of them, a surrogate pair, and
  a cut may fall between the two halves of a pair.
 */
module UI {
  import opened Constants

  /** One UTF-16 code unit. */
  type CodeUnit = x: int | 0 <= x < 0x1_0000

  /** A character inside the Basic Multilingual Plane takes one code unit. */
  predicate InBmp(c: char) {
    c as int < 0x1_0000
  }

  /** The UTF-16 encoding of one character: itself, or a surrogate pair. */
  function Utf16Char(c: char): (u: seq<CodeUnit>)
    ensures |u| == if InBmp(c) then 1 else 2
    ensures InBmp(c) ==> u == [c as int]
    ensures !InBmp(c) ==> 0xD800 <= u[0] < 0xDC00 <= u[1] < 0xE000
  {
    var n := c as int;
    if n < 0x1_0000 then [n]
    else
      var v := n - 0x1_0000;
      [0xD800 + v / 0x400, 0xDC00 + v % 0x400]
  }

  /** The UTF-16 encoding of a text, the form .NET holds it in. */
  function Utf16(s: string): seq<CodeUnit>
    decreases |s|
  {
    if s == [] then [] else Utf16Char(s[0]) + Utf16(s[1..])
  }

  /** How many characters of `s` lie outside the Basic Multilingual Plane. */
  function Astral(s: string): nat
    decreases |s|
  {
    if s == [] then 0 else (if InBmp(s[0]) then 0 else 1) + Astral(s[1..])
  }

  /** Encoding distributes over concatenation. */
  lemma {:induction false} Utf16Append(a: string, b: string)
    ensures Utf16(a + b) == Utf16(a) + Utf16(b)
    decreases |a|
  {
    if a != [] {
      calc {
        Utf16(a + b);
        { assert (a + b)[0] == a[0]; }
        Utf16Char(a[0]) + Utf16((a + b)[1..]);
        { assert (a + b)[1..] == a[1..] + b; }
        Utf16Char(a[0]) + Utf16(a[1..] + b);
        { Utf16Append(a[1..], b); }
        Utf16Char(a[0]) + (Utf16(a[1..]) + Utf16(b));
        Utf16(a) + Utf16(b);
      }
    } else {
      assert a + b == b;
    }
  }

  /** The `Length` of a text: one unit per character, one more per character outside the plane. */
  lemma {:induction false} Utf16Length(s: string)
    ensures |Utf16(s)| == |s| + Astral(s)
    decreases |s|
  {
    if s != [] {
      Utf16Length(s[1..]);
    }
  }

  lemma {:induction false} AstralAll(s: string)
    requires forall i :: 0 <= i < |s| ==> !InBmp(s[i])
    ensures Astral(s) == |s|
    decreases |s|
  {
    if s != [] {
      AstralAll(s[1..]);
    }
  }

  lemma {:induction false} AstralNone(s: string)
    requires forall i :: 0 <= i < |s| ==> InBmp(s[i])
    ensures Astral(s) == 0
    decreases |s|
  {
    if s != [] {
      AstralNone(s[1..]);
    }
  }

  /** "...", the suffix of a cut title. */
  const Ellipsis: seq<CodeUnit> := [0x2E, 0x2E, 0x2E]

  /**
    A title longer than the limit, counted in code units, is cut to its
    first `VIDEO_TITLE_LENGTH_LIMIT` code units and "..." is appended; a
    shorter one is shown as it is.
   */
  function TruncateTitle(text: seq<CodeUnit>): (r: seq<CodeUnit>)
    ensures |text| <= VIDEO_TITLE_LENGTH_LIMIT ==> r == text
    ensures |text| > VIDEO_TITLE_LENGTH_LIMIT ==>
      |r| == VIDEO_TITLE_LENGTH_LIMIT + 3 && r[VIDEO_TITLE_LENGTH_LIMIT..] == Ellipsis
    ensures |r| <= VIDEO_TITLE_LENGTH_LIMIT + 3
    ensures var n := if |text| < VIDEO_TITLE_LENGTH_LIMIT then |text| else VIDEO_TITLE_LENGTH_LIMIT;
      r[..n] == text[..n]
  {
    if |text| > VIDEO_TITLE_LENGTH_LIMIT then
      text[..VIDEO_TITLE_LENGTH_LIMIT] + Ellipsis
    else text
  }

  /** Truncating a shown title again changes nothing. */
  lemma TruncateTitleIdempotent(text: seq<CodeUnit>)
    ensures TruncateTitle(TruncateTitle(text)) == TruncateTitle(text)
  {
    var r := TruncateTitle(text);
    if |text| > VIDEO_TITLE_LENGTH_LIMIT {
      assert r[..VIDEO_TITLE_LENGTH_LIMIT] == text[..VIDEO_TITLE_LENGTH_LIMIT];
      assert r == r[..VIDEO_TITLE_LENGTH_LIMIT] + Ellipsis;
    }
  }

  /** Two titles show the same text when they agree on the first code units the limit allows. */
  lemma TruncateTitleSharedPrefix(a: seq<CodeUnit>, b: seq<CodeUnit>)
    requires |a| > VIDEO_TITLE_LENGTH_LIMIT && |b| > VIDEO_TITLE_LENGTH_LIMIT
    ensures TruncateTitle(a) == TruncateTitle(b) <==>
      a[..VIDEO_TITLE_LENGTH_LIMIT] == b[..VIDEO_TITLE_LENGTH_LIMIT]
  {
    if TruncateTitle(a) == TruncateTitle(b) {
      assert TruncateTitle(a)[..VIDEO_TITLE_LENGTH_LIMIT] == a[..VIDEO_TITLE_LENGTH_LIMIT];
    }
  }

  /**
    A title made only of characters inside the plane is cut after its
    first 30 characters, exactly as counting characters would cut it.
   */
  lemma TruncateTitleBmp(s: string)
    requires forall i :: 0 <= i < |s| ==> InBmp(s[i])
    ensures TruncateTitle(Utf16(s))
         == Utf16(if |s| > VIDEO_TITLE_LENGTH_LIMIT then s[..VIDEO_TITLE_LENGTH_LIMIT] + "..." else s)
  {
    AstralNone(s);
    Utf16Length(s);
    if |s| > VIDEO_TITLE_LENGTH_LIMIT {
      var head, tail := s[..VIDEO_TITLE_LENGTH_LIMIT], s[VIDEO_TITLE_LENGTH_LIMIT..];
      assert s == head + tail;
      Utf16Append(head, tail);
      AstralNone(head);
      Utf16Length(head);
      Utf16Append(head, "...");
      assert Utf16("...") == Ellipsis;
    }
  }

  /**
    A title made only of characters outside the plane (emoji, say) shows at
    most 15 of them, half the limit: one of more than 15 characters is
    already over the limit and keeps its first 15 followed by "...".
   */
  lemma TruncateTitleAstral(s: string)
    requires forall i :: 0 <= i < |s| ==> !InBmp(s[i])
    requires |s| > 15
    ensures TruncateTitle(Utf16(s)) == Utf16(s[..15]) + Ellipsis
  {
    assert 2 * 15 == VIDEO_TITLE_LENGTH_LIMIT;
    AstralCut(s, 15);
    TruncateTitleCut(Utf16(s), Utf16(s[..15]));
  }

  /** A title longer than the limit shows its first `VIDEO_TITLE_LENGTH_LIMIT` code units and "...". */
  lemma TruncateTitleCut(u: seq<CodeUnit>, h: seq<CodeUnit>)
    requires |u| > VIDEO_TITLE_LENGTH_LIMIT && u[..VIDEO_TITLE_LENGTH_LIMIT] == h
    ensures TruncateTitle(u) == h + Ellipsis
  {
  }

  /**
    In a text of characters outside the plane, the first `k` characters are
    exactly the first `2 * k` code units.
   */
  lemma AstralCut(s: string, k: nat)
    requires forall i :: 0 <= i < |s| ==> !InBmp(s[i])
    requires k <= |s|
    ensures |Utf16(s)| == 2 * |s|
    ensures Utf16(s)[..2 * k] == Utf16(s[..k])
  {
    AstralPrefixLength(s, |s|);
    assert s[..|s|] == s;
    assert s == s[..k] + s[k..];
    Utf16Append(s[..k], s[k..]);
    AstralPrefixLength(s, k);
  }

  /** A prefix of `k` characters outside the plane takes `2 * k` code units. */
  lemma AstralPrefixLength(s: string, k: nat)
    requires forall i :: 0 <= i < |s| ==> !InBmp(s[i])
    requires k <= |s|
    ensures |Utf16(s[..k])| == 2 * k
  {
    var p := s[..k];
    forall i | 0 <= i < |p| ensures !InBmp(p[i]) {
      assert p[i] == s[i];
    }
    AstralAll(p);
    Utf16Length(p);
  }

  /** In a text of characters outside the plane, every even code unit opens a surrogate pair. */
  lemma {:induction false} AstralHighAt(s: string, j: nat)
    requires forall i :: 0 <= i < |s| ==> !InBmp(s[i])
    requires j < |s|
    ensures |Utf16(s)| == 2 * |s|
    ensures 0xD800 <= Utf16(s)[2 * j] < 0xDC00
    decreases j
  {
    AstralCut(s, |s|);
    var t := s[1..];
    assert forall i :: 0 <= i < |t| ==> !InBmp(t[i]) by {
      forall i | 0 <= i < |t| ensures !InBmp(t[i]) {
        assert t[i] == s[i + 1];
      }
    }
    assert Utf16(s) == Utf16Char(s[0]) + Utf16(t);
    if j > 0 {
      AstralHighAt(t, j - 1);
      assert Utf16(s)[2 * j] == Utf16(t)[2 * (j - 1)];
    }
  }

  /**
    The cut falls on code units, not characters: after one character inside
    the plane, fifteen or more characters outside it put the cut between the
    two halves of the fifteenth, and the title shows an unpaired high
    surrogate just before "...".
   */
  lemma TruncateTitleSplitsPair(c: char, s: string)
    requires InBmp(c)
    requires forall i :: 0 <= i < |s| ==> !InBmp(s[i])
    requires |s| >= 15
    ensures var r := TruncateTitle(Utf16([c] + s));
      |r| == VIDEO_TITLE_LENGTH_LIMIT + 3 && 0xD800 <= r[VIDEO_TITLE_LENGTH_LIMIT - 1] < 0xDC00
  {
    var k := 15;
    assert 2 * k == VIDEO_TITLE_LENGTH_LIMIT;
    var u := Utf16([c] + s);
    assert u == [c as int] + Utf16(s) by {
      Utf16Append([c], s);
      assert Utf16([c]) == Utf16Char(c) + Utf16([]);
    }
    AstralHighAt(s, k - 1);
    assert u[VIDEO_TITLE_LENGTH_LIMIT - 1] == Utf16(s)[2 * (k - 1)];
  }

  /** The engine's 3D text component: only its text is modelled. */
  class TextMesh {
    var text: seq<CodeUnit>

    constructor ()
      ensures text == []
    {
      text := [];
    }
  }

  /** The warning `SetText` logs when there is no text component. */
  const NotAttachedWarning: string := "[VideoTitle] " + "TextMesh not attached!"

  class VideoTitle {
    /** The text component found on the same object; may be missing. */
    var textMesh: TextMesh?
    /** The warnings sent to the engine's log, oldest first. */
    var warnings: seq<string>

    constructor (textMesh: TextMesh?)
      ensures this.textMesh == textMesh && warnings == []
    {
      this.textMesh := textMesh;
      warnings := [];
    }

    /**
      Shows a title: the text component receives the truncated title; with
      no text component nothing is shown and a warning is logged.
     */
    method SetText(text: seq<CodeUnit>)
      modifies this`warnings, textMesh
      ensures textMesh == old(textMesh)
      ensures textMesh != null ==> textMesh.text == TruncateTitle(text) && warnings == old(warnings)
      ensures textMesh == null ==> warnings == old(warnings) + [NotAttachedWarning]
    {
      var shown := text;
      if |shown| > VIDEO_TITLE_LENGTH_LIMIT {
        shown := shown[..VIDEO_TITLE_LENGTH_LIMIT] + Ellipsis;
      }
      if textMesh != null {
        textMesh.text := shown;
      } else {
        warnings := warnings + [NotAttachedWarning];
      }
    }
  }
}
