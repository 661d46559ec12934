/** Python's whitespace notion and the string helpers built on it
    (`str.isspace`, `str.strip`, `str.split(sep)` and `str.split()`). */
module Text {

  /** Python's `str.isspace()` on a single character: the ASCII controls
      TAB..CR and FS..US, SPACE, NEL, NO-BREAK SPACE, OGHAM SPACE MARK,
      the spaces U+2000..U+200A, LINE/PARAGRAPH SEPARATOR, NARROW NO-BREAK
      SPACE, MEDIUM MATHEMATICAL SPACE and IDEOGRAPHIC SPACE. */
  predicate IsSpace(c: char)
  {
    var k := c as int;
    (9 <= k <= 13) || (28 <= k <= 32) || k == 0x85 || k == 0xA0 || k == 0x1680
    || (0x2000 <= k <= 0x200A) || k == 0x2028 || k == 0x2029 || k == 0x202F
    || k == 0x205F || k == 0x3000
  }

  /** Every character of s is whitespace (true of the empty string). */
  predicate Blank(s: string)
  {
    forall i :: 0 <= i < |s| ==> IsSpace(s[i])
  }

  /** `s.lstrip()`. */
  function StripLeft(s: string): (r: string)
    ensures |r| <= |s|
    ensures forall i :: 0 <= i < |r| ==> r[i] == s[|s| - |r| + i]
    ensures forall i :: 0 <= i < |s| - |r| ==> IsSpace(s[i])
    ensures |r| > 0 ==> !IsSpace(r[0])
  {
    if |s| == 0 || !IsSpace(s[0]) then s
    else StripLeft(s[1..])
  }

  /** `s.rstrip()`. */
  function StripRight(s: string): (r: string)
    ensures |r| <= |s|
    ensures forall i :: 0 <= i < |r| ==> r[i] == s[i]
    ensures forall i :: |r| <= i < |s| ==> IsSpace(s[i])
    ensures |r| > 0 ==> !IsSpace(r[|r| - 1])
  {
    if |s| == 0 || !IsSpace(s[|s| - 1]) then s
    else StripRight(s[..|s| - 1])
  }

  /** `s.strip()`: s without its leading and trailing whitespace. */
  function Strip(s: string): (r: string)
    ensures |r| <= |s|
    ensures |r| > 0 ==> !IsSpace(r[0]) && !IsSpace(r[|r| - 1])
    ensures Blank(s) ==> r == ""
  {
    StripRight(StripLeft(s))
  }

  /** `s.strip()` is empty exactly when s is all whitespace. */
  lemma StripEmptyIffBlank(s: string)
    ensures Strip(s) == "" <==> Blank(s)
  {
    var l := StripLeft(s);
    if Strip(s) == "" {
      assert Blank(l[0..]);
      assert |l| == 0;
      assert s[..|s|] == s;
    } else {
      assert |l| > 0 && !IsSpace(l[0]);
      assert s[|s| - |l|] == l[0];
    }
  }

  /** No character of s equals c. */
  predicate Free(s: string, c: char)
  {
    forall i :: 0 <= i < |s| ==> s[i] != c
  }

  /** Python's `s.split(sep)` for a one-character separator: the pieces
      between occurrences of sep, empty pieces included. */
  function SplitOn(s: string, sep: char): (r: seq<string>)
    ensures |r| >= 1
    ensures forall k :: 0 <= k < |r| ==> Free(r[k], sep)
  {
    if |s| == 0 then [""]
    else
      var rest := SplitOn(s[1..], sep);
      if s[0] == sep then [""] + rest
      else [[s[0]] + rest[0]] + rest[1..]
  }

  /** `sep.join(pieces)`. */
  function Join(pieces: seq<string>, sep: char): string
    requires |pieces| >= 1
  {
    if |pieces| == 1 then pieces[0]
    else pieces[0] + [sep] + Join(pieces[1..], sep)
  }

  /** Splitting loses nothing: joining the pieces with the separator gives s back. */
  lemma {:induction false} JoinSplit(s: string, sep: char)
    ensures Join(SplitOn(s, sep), sep) == s
  {
    if |s| > 0 {
      var rest := SplitOn(s[1..], sep);
      JoinSplit(s[1..], sep);
      if s[0] == sep {
        assert SplitOn(s, sep) == [""] + rest;
        assert ([""] + rest)[1..] == rest;
      } else {
        var p := SplitOn(s, sep);
        assert p == [[s[0]] + rest[0]] + rest[1..];
        if |rest| == 1 {
          assert Join(p, sep) == [s[0]] + rest[0];
        } else {
          assert p[1..] == rest[1..];
          assert Join(rest, sep) == rest[0] + [sep] + Join(rest[1..], sep);
        }
      }
    }
  }

  /** A string without the separator splits into itself alone. */
  lemma {:induction false} SplitOnFree(w: string, sep: char)
    requires Free(w, sep)
    ensures SplitOn(w, sep) == [w]
  {
    if |w| > 0 {
      SplitOnFree(w[1..], sep);
      assert [w[0]] + w[1..] == w;
    }
  }

  /** A separator-free piece followed by the separator splits off as the first piece. */
  lemma {:induction false} SplitOnFreeThenSep(w: string, t: string, sep: char)
    requires Free(w, sep)
    ensures SplitOn(w + [sep] + t, sep) == [w] + SplitOn(t, sep)
  {
    var s := w + [sep] + t;
    if |w| == 0 {
      assert s[0] == sep && s[1..] == t;
    } else {
      assert s[0] == w[0] && s[1..] == w[1..] + [sep] + t;
      SplitOnFreeThenSep(w[1..], t, sep);
      assert [w[0]] + w[1..] == w;
    }
  }

  /** Joining separator-free pieces and splitting the result gives the pieces back. */
  lemma {:induction false} SplitJoin(pieces: seq<string>, sep: char)
    requires |pieces| >= 1
    requires forall k :: 0 <= k < |pieces| ==> Free(pieces[k], sep)
    ensures SplitOn(Join(pieces, sep), sep) == pieces
  {
    if |pieces| == 1 {
      SplitOnFree(pieces[0], sep);
    } else {
      SplitJoin(pieces[1..], sep);
      SplitOnFreeThenSep(pieces[0], Join(pieces[1..], sep), sep);
      assert [pieces[0]] + pieces[1..] == pieces;
    }
  }

  /** A separator appended to s adds one empty piece at the end and changes no other piece. */
  lemma {:induction false} SplitOnAppendSep(s: string, sep: char)
    ensures SplitOn(s + [sep], sep) == SplitOn(s, sep) + [""]
  {
    if |s| == 0 {
      assert [sep][1..] == [];
    } else {
      assert (s + [sep])[1..] == s[1..] + [sep];
      SplitOnAppendSep(s[1..], sep);
    }
  }

  /** No character of s is whitespace. */
  predicate Solid(s: string)
  {
    forall i :: 0 <= i < |s| ==> !IsSpace(s[i])
  }

  /** The words of s when the word cur has been read up to s: the word in
      progress ends at the first whitespace or at the end of s. */
  function WordsFrom(s: string, cur: string): (r: seq<string>)
    requires Solid(cur)
    ensures forall k :: 0 <= k < |r| ==> |r[k]| > 0 && Solid(r[k])
  {
    if |s| == 0 then (if |cur| == 0 then [] else [cur])
    else if IsSpace(s[0]) then (if |cur| == 0 then [] else [cur]) + WordsFrom(s[1..], "")
    else WordsFrom(s[1..], cur + [s[0]])
  }

  /** Python's `s.split()` with no argument: the maximal runs of non-whitespace. */
  function SplitWhitespace(s: string): (r: seq<string>)
    ensures forall k :: 0 <= k < |r| ==> |r[k]| > 0 && Solid(r[k])
    ensures r == [] <==> Blank(s)
  {
    WordsFromEmptyIffBlank(s, "");
    WordsFrom(s, "")
  }

  /** No word is found exactly when none is in progress and the rest is
      all whitespace. */
  lemma {:induction false} WordsFromEmptyIffBlank(s: string, cur: string)
    requires Solid(cur)
    ensures WordsFrom(s, cur) == [] <==> |cur| == 0 && Blank(s)
  {
    if |s| > 0 {
      if IsSpace(s[0]) {
        WordsFromEmptyIffBlank(s[1..], "");
      } else {
        assert !Blank(s);
        WordsFromEmptyIffBlank(s[1..], cur + [s[0]]);
      }
    }
  }

  /** `s.split()` finds no word exactly when s is all whitespace. */
  lemma SplitWhitespaceEmptyIffBlank(s: string)
    ensures SplitWhitespace(s) == [] <==> Blank(s)
  {
    WordsFromEmptyIffBlank(s, "");
  }
}
