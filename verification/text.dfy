/** The handful of Python string operations the application relies on:
    `strip`, `lower`, `capitalize`, substring `in`, `split(sep)`, `split()`
    and `sep.join`. Case mapping covers ASCII letters only, and whitespace is
    the Latin-1 part of Python's whitespace set. */
module Text {

  /** Python's `str.isspace()` on one character, restricted to Latin-1. */
  predicate IsSpace(c: char)
  {
    || c == ' ' || c == '\t' || c == '\n' || c == '\r'
    || c == '\U{B}' || c == '\U{C}'
    || c == '\U{1C}' || c == '\U{1D}' || c == '\U{1E}' || c == '\U{1F}'
    || c == '\U{85}' || c == '\U{A0}'
  }

  predicate NoSpace(s: string)
  {
    forall i :: 0 <= i < |s| ==> !IsSpace(s[i])
  }

  // ---------------------------------------------------------------------
  // Case mapping
  // ---------------------------------------------------------------------

  function LowerChar(c: char): char
  {
    if 'A' <= c <= 'Z' then (c as int + 32) as char else c
  }

  function UpperChar(c: char): char
  {
    if 'a' <= c <= 'z' then (c as int - 32) as char else c
  }

  /** `s.lower()` */
  function Lower(s: string): (r: string)
    ensures |r| == |s|
    ensures forall i :: 0 <= i < |s| ==> r[i] == LowerChar(s[i])
  {
    seq(|s|, i requires 0 <= i < |s| => LowerChar(s[i]))
  }

  /** `s.capitalize()`: first character upper-cased, the rest lower-cased. */
  function Capitalize(s: string): (r: string)
    ensures |r| == |s|
  {
    if |s| == 0 then "" else [UpperChar(s[0])] + Lower(s[1..])
  }

  lemma LowerOfLowerChar(c: char)
    ensures LowerChar(LowerChar(c)) == LowerChar(c)
    ensures LowerChar(UpperChar(c)) == LowerChar(c)
  {
  }

  lemma LowerConcat(a: string, b: string)
    ensures Lower(a + b) == Lower(a) + Lower(b)
  {
  }

  lemma LowerIdempotent(s: string)
    ensures Lower(Lower(s)) == Lower(s)
  {
  }

  /** Capitalising only changes case. */
  lemma LowerCapitalize(s: string)
    ensures Lower(Capitalize(s)) == Lower(s)
  {
    if |s| > 0 {
      var c := Capitalize(s);
      var tail := Lower(s[1..]);
      assert c == [UpperChar(s[0])] + tail;
      forall i | 0 <= i < |s|
        ensures Lower(c)[i] == Lower(s)[i]
      {
        if i == 0 {
          LowerOfLowerChar(s[0]);
        } else {
          assert c[i] == tail[i - 1];
          LowerOfLowerChar(s[i]);
        }
      }
    }
  }

  // ---------------------------------------------------------------------
  // Stripping
  // ---------------------------------------------------------------------

  /** `s.lstrip()`: drops leading whitespace only. */
  function TrimStart(s: string): (r: string)
    ensures |r| <= |s| && r == s[|s| - |r|..]
    ensures r == [] || !IsSpace(r[0])
    ensures forall i :: 0 <= i < |s| - |r| ==> IsSpace(s[i])
  {
    if |s| > 0 && IsSpace(s[0]) then TrimStart(s[1..]) else s
  }

  /** `s.rstrip()`: drops trailing whitespace only. */
  function TrimEnd(s: string): (r: string)
    ensures |r| <= |s| && r == s[..|r|]
    ensures r == [] || !IsSpace(r[|r| - 1])
    ensures forall i :: |r| <= i < |s| ==> IsSpace(s[i])
  {
    if |s| > 0 && IsSpace(s[|s| - 1]) then TrimEnd(s[..|s| - 1]) else s
  }

  /** `s.strip()` */
  function Strip(s: string): (r: string)
    ensures |r| <= |s|
    ensures r == [] || (!IsSpace(r[0]) && !IsSpace(r[|r| - 1]))
  {
    TrimEnd(TrimStart(s))
  }

  /** Text free of whitespace is its own strip. */
  lemma StripNoSpace(s: string)
    requires NoSpace(s)
    ensures Strip(s) == s
  {
  }

  /** Leading whitespace before a text that starts with a non-space is
      dropped, and nothing more. */
  lemma {:induction false} TrimStartPadded(w: string, x: string)
    requires forall i :: 0 <= i < |w| ==> IsSpace(w[i])
    requires |x| > 0 && !IsSpace(x[0])
    ensures TrimStart(w + x) == x
  {
    if |w| > 0 {
      assert (w + x)[1..] == w[1..] + x;
      TrimStartPadded(w[1..], x);
    } else {
      assert w + x == x;
    }
  }

  /** Trailing whitespace after a text that ends with a non-space is
      dropped, and nothing more. */
  lemma {:induction false} TrimEndPadded(x: string, w: string)
    requires forall i :: 0 <= i < |w| ==> IsSpace(w[i])
    requires |x| > 0 && !IsSpace(x[|x| - 1])
    ensures TrimEnd(x + w) == x
  {
    if |w| > 0 {
      assert (x + w)[..|x + w| - 1] == x + w[..|w| - 1];
      TrimEndPadded(x, w[..|w| - 1]);
    } else {
      assert x + w == x;
    }
  }

  /** Stripping a padded text gives back the text between the pads. */
  lemma StripPadded(lead: string, x: string, trail: string)
    requires forall i :: 0 <= i < |lead| ==> IsSpace(lead[i])
    requires forall i :: 0 <= i < |trail| ==> IsSpace(trail[i])
    requires |x| > 0 && !IsSpace(x[0]) && !IsSpace(x[|x| - 1])
    ensures Strip(lead + x + trail) == x
  {
    assert lead + x + trail == lead + (x + trail);
    assert (x + trail)[0] == x[0];
    TrimStartPadded(lead, x + trail);
    TrimEndPadded(x, trail);
  }

  /** A text that is all whitespace strips to nothing. */
  lemma StripAllSpace(s: string)
    requires forall i :: 0 <= i < |s| ==> IsSpace(s[i])
    ensures Strip(s) == ""
  {
  }

  // ---------------------------------------------------------------------
  // Substring test
  // ---------------------------------------------------------------------

  /** `needle` occurs in `hay` starting at position `k`. */
  predicate OccursAt(hay: string, needle: string, k: int)
  {
    0 <= k && k + |needle| <= |hay| && hay[k..k + |needle|] == needle
  }

  lemma OccursShift(hay: string, needle: string, k: int)
    requires |hay| > 0 && 0 <= k
    ensures OccursAt(hay[1..], needle, k) <==> OccursAt(hay, needle, k + 1)
  {
    if 0 <= k && k + |needle| <= |hay[1..]| {
      assert hay[1..][k..k + |needle|] == hay[k + 1..k + 1 + |needle|];
    }
  }

  /** Python's `needle in hay` on strings. */
  function Contains(hay: string, needle: string): (b: bool)
    ensures b <==> exists k :: OccursAt(hay, needle, k)
    decreases |hay|
  {
    if |needle| <= |hay| && hay[..|needle|] == needle then
      assert OccursAt(hay, needle, 0);
      true
    else if |hay| == 0 then
      false
    else
      var b := Contains(hay[1..], needle);
      assert b ==> exists k :: OccursAt(hay, needle, k) by {
        if b {
          var k :| OccursAt(hay[1..], needle, k);
          OccursShift(hay, needle, k);
        }
      }
      assert (exists k :: OccursAt(hay, needle, k)) ==> b by {
        if exists k :: OccursAt(hay, needle, k) {
          var k :| OccursAt(hay, needle, k);
          assert k != 0;
          OccursShift(hay, needle, k - 1);
        }
      }
      b
  }

  /** `s.startswith(prefix)` */
  predicate StartsWith(s: string, prefix: string)
  {
    |prefix| <= |s| && s[..|prefix|] == prefix
  }

  // ---------------------------------------------------------------------
  // Splitting on a separator and joining
  // ---------------------------------------------------------------------

  /** `sep.join(parts)` */
  function JoinWith(parts: seq<string>, sep: char): string
  {
    if |parts| == 0 then ""
    else if |parts| == 1 then parts[0]
    else parts[0] + [sep] + JoinWith(parts[1..], sep)
  }

  /** `s.split(sep)` for a one-character separator: always at least one
      part, no part holds the separator, and joining the parts back gives
      `s` again. */
  function SplitOn(s: string, sep: char): (parts: seq<string>)
    ensures |parts| >= 1
    ensures forall i :: 0 <= i < |parts| ==> sep !in parts[i]
    ensures JoinWith(parts, sep) == s
  {
    if |s| == 0 then [""]
    else
      var rest := SplitOn(s[1..], sep);
      if s[0] == sep then
        assert JoinWith([""] + rest, sep) == [sep] + JoinWith(rest, sep) by {
          assert ([""] + rest)[1..] == rest;
        }
        assert s == [s[0]] + s[1..];
        [""] + rest
      else
        var parts := [[s[0]] + rest[0]] + rest[1..];
        assert JoinWith(parts, sep) == [s[0]] + JoinWith(rest, sep) by {
          assert parts[1..] == rest[1..];
        }
        assert s == [s[0]] + s[1..];
        parts
  }

  /** A text with no separator splits into itself. */
  lemma {:induction false} SplitNoSep(p: string, sep: char)
    requires sep !in p
    ensures SplitOn(p, sep) == [p]
  {
    if |p| > 0 {
      SplitNoSep(p[1..], sep);
      assert [p[0]] + p[1..] == p;
    }
  }

  /** Splitting `p + sep + t`, with `p` free of the separator, yields `p`
      followed by the parts of `t`. */
  lemma {:induction false} SplitAfterPart(p: string, t: string, sep: char)
    requires sep !in p
    ensures SplitOn(p + [sep] + t, sep) == [p] + SplitOn(t, sep)
  {
    var s := p + [sep] + t;
    if |p| == 0 {
      assert s[1..] == t;
    } else {
      assert s[1..] == p[1..] + [sep] + t;
      SplitAfterPart(p[1..], t, sep);
      assert [p[0]] + p[1..] == p;
    }
  }

  /** Joining parts that hold no separator and splitting again gives the
      parts back. */
  lemma {:induction false} SplitJoinRoundTrip(parts: seq<string>, sep: char)
    requires |parts| >= 1
    requires forall i :: 0 <= i < |parts| ==> sep !in parts[i]
    ensures SplitOn(JoinWith(parts, sep), sep) == parts
  {
    if |parts| == 1 {
      SplitNoSep(parts[0], sep);
    } else {
      SplitJoinRoundTrip(parts[1..], sep);
      SplitAfterPart(parts[0], JoinWith(parts[1..], sep), sep);
      assert [parts[0]] + parts[1..] == parts;
    }
  }

  // ---------------------------------------------------------------------
  // Whitespace tokenisation (`s.split()` with no argument)
  // ---------------------------------------------------------------------

  /** Longest prefix of `s` free of whitespace. */
  function TakeWord(s: string): (w: string)
    ensures |w| <= |s| && w == s[..|w|]
    ensures NoSpace(w)
    ensures |w| < |s| ==> IsSpace(s[|w|])
  {
    if |s| == 0 || IsSpace(s[0]) then ""
    else
      var w := TakeWord(s[1..]);
      assert [s[0]] + w == s[..|w| + 1];
      [s[0]] + w
  }

  /** The first word of the text, leading whitespace skipped. */
  function FirstWord(s: string): (w: string)
    ensures NoSpace(w)
    ensures TrimStart(s) != [] ==> w != ""
  {
    var t := TrimStart(s);
    assert t != [] ==> !IsSpace(t[0]);
    TakeWord(t)
  }

  /** What follows the first word. */
  function AfterWord(s: string): (rest: string)
    ensures TrimStart(s) != [] ==> |rest| < |s|
  {
    var t := TrimStart(s);
    t[|FirstWord(s)|..]
  }

  /** The text after its leading whitespace is the first word, then what
      follows it. */
  lemma WordSplit(s: string)
    ensures TrimStart(s) == FirstWord(s) + AfterWord(s)
  {
    PrefixSplit(TrimStart(s), FirstWord(s));
  }

  /** A prefix followed by the rest is the whole text. */
  lemma PrefixSplit(t: string, w: string)
    requires |w| <= |t| && w == t[..|w|]
    ensures t == w + t[|w|..]
  {
  }

  /** `s.split()`: the maximal runs of non-whitespace, in order. */
  function Tokens(s: string): (ts: seq<string>)
    ensures forall i :: 0 <= i < |ts| ==> ts[i] != "" && NoSpace(ts[i])
    decreases |s|
  {
    if TrimStart(s) == [] then []
    else
      var w, rest := FirstWord(s), Tokens(AfterWord(s));
      WordsCons(w, rest);
      [w] + rest
  }

  /** A word put in front of a list of words gives a list of words. */
  lemma WordsCons(w: string, ws: seq<string>)
    requires w != "" && NoSpace(w)
    requires forall i :: 0 <= i < |ws| ==> ws[i] != "" && NoSpace(ws[i])
    ensures forall i :: 0 <= i < |[w] + ws| ==> ([w] + ws)[i] != "" && NoSpace(([w] + ws)[i])
  {
    var ts := [w] + ws;
    forall i | 0 <= i < |ts|
      ensures ts[i] != "" && NoSpace(ts[i])
    {
      if i > 0 {
        assert ts[i] == ws[i - 1];
      }
    }
  }

  /** The text with every whitespace character removed. */
  function DropSpaces(s: string): string
  {
    if |s| == 0 then ""
    else if IsSpace(s[0]) then DropSpaces(s[1..])
    else [s[0]] + DropSpaces(s[1..])
  }

  function Concat(ts: seq<string>): string
  {
    if |ts| == 0 then "" else ts[0] + Concat(ts[1..])
  }

  lemma {:induction false} DropSpacesConcat(a: string, b: string)
    ensures DropSpaces(a + b) == DropSpaces(a) + DropSpaces(b)
  {
    if |a| > 0 {
      assert (a + b)[1..] == a[1..] + b;
      DropSpacesConcat(a[1..], b);
    } else {
      assert a + b == b;
    }
  }

  lemma {:induction false} DropSpacesOfSpaces(s: string)
    requires forall i :: 0 <= i < |s| ==> IsSpace(s[i])
    ensures DropSpaces(s) == ""
  {
    if |s| > 0 {
      DropSpacesOfSpaces(s[1..]);
    }
  }

  lemma {:induction false} DropSpacesOfWord(s: string)
    requires NoSpace(s)
    ensures DropSpaces(s) == s
  {
    if |s| > 0 {
      DropSpacesOfWord(s[1..]);
      assert [s[0]] + s[1..] == s;
    }
  }

  /** Whitespace before the first token contributes nothing. */
  lemma DropLeadingSpaces(s: string)
    ensures DropSpaces(s) == DropSpaces(TrimStart(s))
  {
    var t := TrimStart(s);
    var k := |s| - |t|;
    var lead := s[..k];
    assert t == s[k..];
    assert s == lead + t;
    DropSpacesConcat(lead, t);
    DropSpacesOfSpaces(lead);
  }

  lemma ConcatCons(w: string, ts: seq<string>)
    ensures Concat([w] + ts) == w + Concat(ts)
  {
    assert ([w] + ts)[1..] == ts;
  }

  /** Glueing the tokens back: the first word, then the rest glued. */
  lemma ConcatTokensStep(s: string)
    requires TrimStart(s) != []
    ensures Concat(Tokens(s)) == FirstWord(s) + Concat(Tokens(AfterWord(s)))
  {
    ConcatCons(FirstWord(s), Tokens(AfterWord(s)));
  }

  /** Dropping whitespace: the first word, then the rest without it. */
  lemma DropSpacesStep(s: string)
    requires TrimStart(s) != []
    ensures DropSpaces(s) == FirstWord(s) + DropSpaces(AfterWord(s))
  {
    DropLeadingSpaces(s);
    WordSplit(s);
    DropSpacesConcat(FirstWord(s), AfterWord(s));
    DropSpacesOfWord(FirstWord(s));
  }

  /** Tokenising loses only whitespace: the tokens, glued together, are the
      text without its whitespace. */
  lemma {:induction false} TokensCoverText(s: string)
    ensures Concat(Tokens(s)) == DropSpaces(s)
    decreases |s|
  {
    if TrimStart(s) != [] {
      ConcatTokensStep(s);
      DropSpacesStep(s);
      TokensCoverText(AfterWord(s));
    } else {
      DropLeadingSpaces(s);
    }
  }
}
