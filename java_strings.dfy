/** The pieces of java.lang.String and Spring's StringUtils that the core relies on:
    String.split with a one-character separator, String.join, and StringUtils.hasText. */
module JavaStrings {

  /** `s` does not contain `c`. */
  predicate Excludes(s: string, c: char)
  {
    forall k :: 0 <= k < |s| ==> s[k] != c
  }

  /** Index of the first `c` in `s`, or |s| when `s` has none (where Java's indexOf answers -1). */
  function IndexOf(s: string, c: char): (i: nat)
    ensures i <= |s|
    ensures i < |s| ==> s[i] == c
    ensures Excludes(s[..i], c)
  {
    if |s| == 0 || s[0] == c then 0
    else
      var j := IndexOf(s[1..], c);
      assert s[..j + 1] == [s[0]] + s[1..][..j];
      1 + j
  }

  /** Number of occurrences of `c` in `s`. */
  function Count(s: string, c: char): nat
  {
    if |s| == 0 then 0 else (if s[0] == c then 1 else 0) + Count(s[1..], c)
  }

  /** Every segment of `s` between occurrences of `sep`, empty ones included: the list that
      String.split collects (each piece up to the next separator, then the remainder) before it trims. */
  function Segments(s: string, sep: char): (r: seq<string>)
    decreases |s|
    ensures |r| >= 1
    ensures forall k :: 0 <= k < |r| ==> Excludes(r[k], sep)
  {
    var i := IndexOf(s, sep);
    if i == |s| then
      assert s[..i] == s;
      [s]
    else [s[..i]] + Segments(s[i + 1..], sep)
  }

  /** Removes the empty strings at the end of `p`, as split does when its limit is 0. */
  function DropTrailingEmpty(p: seq<string>): (r: seq<string>)
    ensures r <= p
    ensures forall k :: |r| <= k < |p| ==> p[k] == ""
    ensures r == [] || r[|r| - 1] != ""
  {
    if |p| > 0 && p[|p| - 1] == "" then DropTrailingEmpty(p[..|p| - 1]) else p
  }

  /** s.split(sep) in Java, for a separator that is not a regular-expression metacharacter (such as ',')
      and the default limit 0: a string without the separator is returned whole, as the only element
      (so "" gives [""]); otherwise the segments, less every trailing empty one. */
  function Split(s: string, sep: char): (r: seq<string>)
    ensures forall k :: 0 <= k < |r| ==> Excludes(r[k], sep)
    ensures !Excludes(s, sep) ==> r <= Segments(s, sep)
    ensures !Excludes(s, sep) ==> forall k :: |r| <= k < |Segments(s, sep)| ==> Segments(s, sep)[k] == ""
    ensures !Excludes(s, sep) ==> r == [] || r[|r| - 1] != ""
    ensures Excludes(s, sep) ==> r == Segments(s, sep) == [s]
  {
    if IndexOf(s, sep) == |s| then [s] else DropTrailingEmpty(Segments(s, sep))
  }

  /** String.join(sep, parts): the parts with one separator between neighbours. */
  function Join(parts: seq<string>, sep: char): string
  {
    if |parts| == 0 then ""
    else if |parts| == 1 then parts[0]
    else parts[0] + [sep] + Join(parts[1..], sep)
  }

  /** Character.isWhitespace: the Unicode space, line and paragraph separators other than the
      non-breaking ones (U+00A0, U+2007, U+202F), and the controls U+0009-U+000D and U+001C-U+001F. */
  predicate IsWhitespace(c: char): (b: bool)
    ensures c == ' ' || c == '\t' || c == '\n' || c == '\r' ==> b
    ensures c as int == 0xA0 || c as int == 0x2007 || c as int == 0x202F ==> !b
    ensures c == ',' ==> !b
  {
    var n := c as int;
    || 0x09 <= n <= 0x0D
    || 0x1C <= n <= 0x20
    || n == 0x1680
    || 0x2000 <= n <= 0x2006
    || 0x2008 <= n <= 0x200A
    || n == 0x2028 || n == 0x2029 || n == 0x205F || n == 0x3000
  }

  /** StringUtils.hasText: the string holds at least one character that is not whitespace. */
  predicate HasText(s: string): (b: bool)
    ensures |s| == 0 ==> !b
    ensures !b <==> forall k :: 0 <= k < |s| ==> IsWhitespace(s[k])
  {
    exists k :: 0 <= k < |s| && !IsWhitespace(s[k])
  }

  /** Counting separators from the first one on. */
  lemma {:induction false} CountFromIndexOf(s: string, c: char)
    ensures IndexOf(s, c) == |s| ==> Count(s, c) == 0
    ensures IndexOf(s, c) < |s| ==> Count(s, c) == 1 + Count(s[IndexOf(s, c) + 1..], c)
  {
    if |s| > 0 && s[0] != c {
      CountFromIndexOf(s[1..], c);
      if IndexOf(s, c) < |s| {
        assert s[1..][IndexOf(s[1..], c) + 1..] == s[IndexOf(s, c) + 1..];
      }
    }
  }

  /** The first separator of `a + [c] + b`, when `a` has none, is the one after `a`. */
  lemma {:induction false} IndexOfAfterPrefix(a: string, c: char, b: string)
    requires Excludes(a, c)
    ensures IndexOf(a + [c] + b, c) == |a|
  {
    if |a| > 0 {
      assert (a + [c] + b)[1..] == a[1..] + [c] + b;
      IndexOfAfterPrefix(a[1..], c, b);
    }
  }

  /** Joining a part in front of a non-empty list puts one separator after it. */
  lemma JoinCons(x: string, rest: seq<string>, sep: char)
    requires |rest| >= 1
    ensures Join([x] + rest, sep) == x + [sep] + Join(rest, sep)
  {
    assert ([x] + rest)[1..] == rest;
  }

  /** Joining a part onto the end of a non-empty list puts one separator before it. */
  lemma {:induction false} JoinSnoc(parts: seq<string>, x: string, sep: char)
    requires |parts| >= 1
    ensures Join(parts + [x], sep) == Join(parts, sep) + [sep] + x
  {
    if |parts| == 1 {
      JoinCons(parts[0], [x], sep);
      assert parts + [x] == [parts[0]] + [x];
    } else {
      assert parts + [x] == [parts[0]] + (parts[1..] + [x]);
      JoinCons(parts[0], parts[1..] + [x], sep);
      JoinSnoc(parts[1..], x, sep);
      JoinCons(parts[0], parts[1..], sep);
      assert parts == [parts[0]] + parts[1..];
    }
  }

  /** A string is what comes before position `i`, the character there, and what follows. */
  lemma SplitAround(s: string, i: nat)
    requires i < |s|
    ensures s == s[..i] + [s[i]] + s[i + 1..]
  {
    assert s == s[..i] + s[i..];
    assert s[i..] == [s[i]] + s[i + 1..];
  }

  /** Joining the segments with the separator gives back the string. */
  lemma {:induction false} JoinSegments(s: string, sep: char)
    ensures Join(Segments(s, sep), sep) == s
  {
    var i := IndexOf(s, sep);
    if i < |s| {
      SplitAround(s, i);
      JoinCons(s[..i], Segments(s[i + 1..], sep), sep);
      JoinSegments(s[i + 1..], sep);
    }
  }

  /** There is one more segment than there are separators. */
  lemma {:induction false} SegmentsCount(s: string, sep: char)
    ensures |Segments(s, sep)| == Count(s, sep) + 1
  {
    CountFromIndexOf(s, sep);
    var i := IndexOf(s, sep);
    if i < |s| {
      SegmentsCount(s[i + 1..], sep);
    }
  }

  /** The last segment is empty exactly when the string is empty or ends with the separator. */
  lemma {:induction false} LastSegmentEmpty(s: string, sep: char)
    ensures var p := Segments(s, sep); p[|p| - 1] == "" <==> (|s| == 0 || s[|s| - 1] == sep)
  {
    var i := IndexOf(s, sep);
    if i < |s| {
      var rest := s[i + 1..];
      LastSegmentEmpty(rest, sep);
      var p := Segments(s, sep);
      assert p == [s[..i]] + Segments(rest, sep);
      assert p[|p| - 1] == Segments(rest, sep)[|Segments(rest, sep)| - 1];
      if |rest| > 0 {
        assert rest[|rest| - 1] == s[|s| - 1];
      }
    } else if |s| > 0 {
      assert s[|s| - 1] != sep;
    }
  }

  /** The segments are the only separator-free parts whose join is the string. */
  lemma {:induction false} SegmentsUnique(parts: seq<string>, sep: char)
    requires |parts| >= 1
    requires forall k :: 0 <= k < |parts| ==> Excludes(parts[k], sep)
    ensures Segments(Join(parts, sep), sep) == parts
  {
    if |parts| == 1 {
      assert Join(parts, sep) == parts[0];
      assert IndexOf(parts[0], sep) == |parts[0]| by {
        assert Excludes(parts[0], sep);
      }
    } else {
      var x, rest := parts[0], parts[1..];
      var tail := Join(rest, sep);
      assert parts == [x] + rest;
      assert Join(parts, sep) == x + [sep] + tail by {
        JoinCons(x, rest, sep);
      }
      var s := x + [sep] + tail;
      assert IndexOf(s, sep) == |x| by {
        IndexOfAfterPrefix(x, sep, tail);
      }
      assert s[..|x|] == x && s[|x| + 1..] == tail;
      assert Segments(s, sep) == [x] + Segments(tail, sep);
      SegmentsUnique(rest, sep);
    }
  }

  /** A string that does not end with the separator splits into all its segments, joins back to
      itself, and yields one more piece than it has separators. */
  lemma SplitWithoutTrailingSeparator(s: string, sep: char)
    requires |s| == 0 || s[|s| - 1] != sep
    ensures Split(s, sep) == Segments(s, sep)
    ensures Join(Split(s, sep), sep) == s
    ensures |Split(s, sep)| == Count(s, sep) + 1
  {
    LastSegmentEmpty(s, sep);
    JoinSegments(s, sep);
    SegmentsCount(s, sep);
  }

  /** Separator-free parts whose last part is not empty are what split gives back from their join. */
  lemma SplitOfJoin(parts: seq<string>, sep: char)
    requires |parts| >= 1 && parts[|parts| - 1] != ""
    requires forall k :: 0 <= k < |parts| ==> Excludes(parts[k], sep)
    ensures Split(Join(parts, sep), sep) == parts
  {
    var s := Join(parts, sep);
    SegmentsUnique(parts, sep);
    LastSegmentEmpty(s, sep);
    SplitWithoutTrailingSeparator(s, sep);
  }

  /** One trailing separator after the join of separator-free parts whose last part is not empty is
      dropped by split: it gives back the parts, without an empty piece at the end. */
  lemma SplitDropsTrailingSeparator(parts: seq<string>, sep: char)
    requires |parts| >= 1 && parts[|parts| - 1] != ""
    requires forall k :: 0 <= k < |parts| ==> Excludes(parts[k], sep)
    ensures Split(Join(parts, sep) + [sep], sep) == parts
  {
    var s := Join(parts, sep) + [sep];
    var withEmpty := parts + [""];
    assert Join(withEmpty, sep) == s by {
      JoinSnoc(parts, "", sep);
    }
    assert forall k :: 0 <= k < |withEmpty| ==> Excludes(withEmpty[k], sep) by {
      assert forall k :: 0 <= k < |parts| ==> withEmpty[k] == parts[k];
    }
    SegmentsUnique(withEmpty, sep);
    assert s[|s| - 1] == sep;
    assert withEmpty[..|withEmpty| - 1] == parts;
  }

  /** Joining parts that are all empty gives nothing but separators. */
  lemma {:induction false} JoinOfEmptyParts(parts: seq<string>, sep: char)
    requires forall k :: 0 <= k < |parts| ==> parts[k] == ""
    ensures forall k :: 0 <= k < |Join(parts, sep)| ==> Join(parts, sep)[k] == sep
  {
    if |parts| > 1 {
      JoinOfEmptyParts(parts[1..], sep);
      assert Join(parts, sep) == [sep] + Join(parts[1..], sep);
    }
  }

  /** A string made only of separators has only empty segments. */
  lemma {:induction false} SegmentsOfSeparators(s: string, sep: char)
    requires forall k :: 0 <= k < |s| ==> s[k] == sep
    ensures forall k :: 0 <= k < |Segments(s, sep)| ==> Segments(s, sep)[k] == ""
  {
    if |s| > 0 {
      assert IndexOf(s, sep) == 0;
      SegmentsOfSeparators(s[1..], sep);
      assert Segments(s, sep) == [""] + Segments(s[1..], sep);
    }
  }

  /** Split yields no pieces at all exactly for a non-empty string of separators only (",", ",,", ...). */
  lemma SplitEmpty(s: string, sep: char)
    ensures Split(s, sep) == [] <==> (|s| > 0 && forall k :: 0 <= k < |s| ==> s[k] == sep)
  {
    var p := Segments(s, sep);
    if Split(s, sep) == [] {
      assert IndexOf(s, sep) < |s|;
      JoinSegments(s, sep);
      JoinOfEmptyParts(p, sep);
    }
    if |s| > 0 && forall k :: 0 <= k < |s| ==> s[k] == sep {
      assert s[0] == sep;
      SegmentsOfSeparators(s, sep);
    }
  }
}
