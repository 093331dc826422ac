/**
 * The string handling `get_command` and `execute` rely on: literal
 * prefix tests (`str.startswith` and the `^` regular expressions with a
 * literal body), Python's `str.split(sep)` and `sep.join(...)`, and the
 * two substitutions that normalise white space before a tweet is cut into
 * words.
 */
module Text {
  /** `s.startswith(p)`; also `re.match('^p', s)` for a literal `p`. */
  predicate StartsWith(s: string, p: string) {
    |p| <= |s| && s[..|p|] == p
  }

  /** `s.endswith(p)`. */
  predicate EndsWith(s: string, p: string) {
    |p| <= |s| && s[|s| - |p|..] == p
  }

  /** The position of the first `c` in `s` (`s.index(c)`). */
  function FirstIndex<T(==)>(s: seq<T>, c: T): (r: nat)
    requires c in s
    ensures r < |s| && s[r] == c && c !in s[..r]
  {
    if s[0] == c then 0
    else
      assert c in s[1..] by {
        var k :| 0 <= k < |s| && s[k] == c;
        assert s[1..][k - 1] == c;
      }
      var r := 1 + FirstIndex(s[1..], c);
      assert s[..r] == [s[0]] + s[1..][..r - 1];
      r
  }

  /** The first `c` is at `k` when `s[k]` is a `c` and none comes before. */
  lemma FirstIndexAt<T>(s: seq<T>, c: T, k: nat)
    requires k < |s| && s[k] == c && c !in s[..k]
    ensures FirstIndex(s, c) == k
  {
    var r := FirstIndex(s, c);
    assert forall j :: 0 <= j < k ==> s[j] == s[..k][j];
    assert forall j :: 0 <= j < r ==> s[j] == s[..r][j];
  }

  /** `s.split(sep)`: the pieces between the separators, empty pieces included. */
  function Split(s: string, sep: char): (r: seq<string>)
    ensures |r| >= 1
    ensures forall i :: 0 <= i < |r| ==> sep !in r[i]
    decreases |s|
  {
    if sep !in s then [s]
    else
      var i := FirstIndex(s, sep);
      [s[..i]] + Split(s[i + 1..], sep)
  }

  /** `sep.join(ws)`. */
  function Join(ws: seq<string>, sep: char): string {
    if ws == [] then ""
    else if |ws| == 1 then ws[0]
    else ws[0] + [sep] + Join(ws[1..], sep)
  }

  /** Splitting loses nothing: joining the pieces gives the string back. */
  lemma {:induction false} JoinSplit(s: string, sep: char)
    ensures Join(Split(s, sep), sep) == s
    decreases |s|
  {
    if sep in s {
      var i := FirstIndex(s, sep);
      var rest := Split(s[i + 1..], sep);
      JoinSplit(s[i + 1..], sep);
      var ws := [s[..i]] + rest;
      assert Split(s, sep) == ws;
      assert ws[1..] == rest;
      assert Join(ws, sep) == s[..i] + [sep] + Join(rest, sep);
      assert s == s[..i] + [sep] + s[i + 1..];
    }
  }

  /** Conversely, joining pieces free of the separator and splitting gives the pieces back. */
  lemma {:induction false} SplitJoin(ws: seq<string>, sep: char)
    requires |ws| >= 1
    requires forall i :: 0 <= i < |ws| ==> sep !in ws[i]
    ensures Split(Join(ws, sep), sep) == ws
  {
    if |ws| > 1 {
      SplitJoin(ws[1..], sep);
      var s := Join(ws, sep);
      var w := ws[0];
      assert s[|w|] == sep;
      assert s[..|w|] == w;
      assert sep in s;
      FirstIndexAt(s, sep, |w|);
      assert s[|w| + 1..] == Join(ws[1..], sep);
    } else {
      assert Join(ws, sep) == ws[0];
    }
  }

  // ------------------------------------------------------- white space

  /** The characters the first substitution rewrites: newline, space and the full-width space U+3000. */
  predicate IsBreak(c: char) {
    c == '\n' || c == ' ' || c == '　'
  }

  /** Drop the run of `c` at the front of `s`. */
  function DropRun(s: string, c: char): (r: string)
    ensures |r| <= |s| && r == s[|s| - |r|..]
    ensures r == [] || r[0] != c
    ensures forall i :: 0 <= i < |s| - |r| ==> s[i] == c
  {
    if s == [] || s[0] != c then s else DropRun(s[1..], c)
  }

  /**
   * `re.sub('(\n+| +|　+)', ' ', s)`: every maximal run of newlines, of
   * spaces, or of full-width spaces becomes one space.  A run of one kind
   * ends where a character of another kind starts.
   */
  function SubRuns(s: string): (r: string)
    decreases |s|
  {
    if s == [] then []
    else if IsBreak(s[0]) then " " + SubRuns(DropRun(s, s[0]))
    else [s[0]] + SubRuns(s[1..])
  }

  /** `re.sub(' +', ' ', s)`: every run of spaces becomes one space. */
  function Squeeze(s: string): (r: string)
    decreases |s|
  {
    if s == [] then []
    else if s[0] == ' ' then " " + Squeeze(DropRun(s, ' '))
    else [s[0]] + Squeeze(s[1..])
  }

  /** The text `get_command` cuts into words. */
  function Normalize(s: string): string {
    Squeeze(SubRuns(s))
  }

  /** No newline, no full-width space, no two spaces in a row. */
  predicate Clean(s: string) {
    && (forall i :: 0 <= i < |s| ==> s[i] != '\n' && s[i] != '　')
    && (forall i :: 0 <= i < |s| - 1 ==> !(s[i] == ' ' && s[i + 1] == ' '))
  }

  // ------------------------------------------------ runs of white space

  /** Every white-space character turned into a space. */
  function Blank(s: string): (r: string)
    ensures |r| == |s|
    ensures forall i :: 0 <= i < |s| ==> r[i] == if IsBreak(s[i]) then ' ' else s[i]
  {
    if s == [] then [] else [if IsBreak(s[0]) then ' ' else s[0]] + Blank(s[1..])
  }

  /** Every space that directly follows a space dropped, so each run of spaces is left as one. */
  function Dedup(s: string): (r: string)
    decreases |s|
  {
    if |s| <= 1 then s
    else if s[0] == ' ' && s[1] == ' ' then Dedup(s[1..])
    else [s[0]] + Dedup(s[1..])
  }

  lemma DedupCons(a: char, x: string)
    ensures Dedup([a] + x) == if a == ' ' && x != [] && x[0] == ' ' then Dedup(x) else [a] + Dedup(x)
  {
    if x != [] {
      assert ([a] + x)[1..] == x;
    }
  }

  /** A run of spaces at the front leaves one space. */
  lemma {:induction false} DedupSpaceRun(s: string)
    requires s != [] && s[0] == ' '
    ensures Dedup(s) == " " + Dedup(DropRun(s, ' '))
    decreases |s|
  {
    if |s| > 1 && s[1] == ' ' {
      DedupSpaceRun(s[1..]);
    }
  }

  /** The second substitution turns each run of spaces into one space and changes nothing else. */
  lemma {:induction false} SqueezeDedup(s: string)
    ensures Squeeze(s) == Dedup(s)
    decreases |s|
  {
    if s != [] {
      if s[0] == ' ' {
        SqueezeDedup(DropRun(s, ' '));
        DedupSpaceRun(s);
      } else {
        SqueezeDedup(s[1..]);
        DedupCons(s[0], s[1..]);
        assert [s[0]] + s[1..] == s;
      }
    }
  }

  /** A run of one break character at the front blanks to spaces that leave one. */
  lemma {:induction false} DedupBlankRun(s: string, c: char)
    requires IsBreak(c) && s != [] && s[0] == c
    ensures Dedup(Blank(s)) == Dedup(" " + Blank(DropRun(s, c)))
    decreases |s|
  {
    assert Blank(s) == " " + Blank(s[1..]);
    if |s| > 1 && s[1] == c {
      DedupBlankRun(s[1..], c);
      DedupCons(' ', Blank(s[1..]));
    }
  }

  /** The first substitution changes only white space within runs: collapsing afterwards gives the same text. */
  lemma {:induction false} SubRunsDedup(s: string)
    ensures Dedup(SubRuns(s)) == Dedup(Blank(s))
    decreases |s|
  {
    if s != [] {
      if IsBreak(s[0]) {
        var d := DropRun(s, s[0]);
        SubRunsDedup(d);
        DedupBlankRun(s, s[0]);
        assert SubRuns(s) == " " + SubRuns(d);
        if d != [] {
          assert SubRuns(d)[0] == ' ' <==> IsBreak(d[0]);
        }
        DedupCons(' ', SubRuns(d));
        DedupCons(' ', Blank(d));
      } else {
        SubRunsDedup(s[1..]);
        assert SubRuns(s) == [s[0]] + SubRuns(s[1..]);
        assert Blank(s) == [s[0]] + Blank(s[1..]);
        DedupCons(s[0], SubRuns(s[1..]));
        DedupCons(s[0], Blank(s[1..]));
      }
    }
  }

  /** The characters that are not white space, in order. */
  function Visible(s: string): (r: string)
    ensures forall i :: 0 <= i < |r| ==> !IsBreak(r[i])
  {
    if s == [] then []
    else (if IsBreak(s[0]) then [] else [s[0]]) + Visible(s[1..])
  }

  lemma {:induction false} VisibleDropRun(s: string, c: char)
    requires IsBreak(c)
    ensures Visible(DropRun(s, c)) == Visible(s)
  {
    if s != [] && s[0] == c {
      VisibleDropRun(s[1..], c);
    }
  }

  /** The first substitution leaves no newline or full-width space and keeps every other character except spaces. */
  lemma {:induction false} SubRunsEffect(s: string)
    ensures forall i :: 0 <= i < |SubRuns(s)| ==> SubRuns(s)[i] != '\n' && SubRuns(s)[i] != '　'
    ensures Visible(SubRuns(s)) == Visible(s)
    decreases |s|
  {
    if s != [] {
      if IsBreak(s[0]) {
        var d := DropRun(s, s[0]);
        SubRunsEffect(d);
        VisibleDropRun(s, s[0]);
        assert Visible(s) == Visible(s[1..]);
        VisibleDropRun(s[1..], s[0]);
        assert DropRun(s[1..], s[0]) == d;
      } else {
        SubRunsEffect(s[1..]);
      }
    }
  }

  /** Squeezing keeps the characters that are not spaces, adds no new kind of character, and leaves no two spaces in a row. */
  lemma {:induction false} SqueezeEffect(s: string)
    ensures forall i :: 0 <= i < |Squeeze(s)| ==> Squeeze(s)[i] == ' ' || Squeeze(s)[i] in s
    ensures forall i :: 0 <= i < |Squeeze(s)| - 1 ==> !(Squeeze(s)[i] == ' ' && Squeeze(s)[i + 1] == ' ')
    ensures Visible(Squeeze(s)) == Visible(s)
    decreases |s|
  {
    if s != [] {
      var r := Squeeze(s);
      if s[0] == ' ' {
        var d := DropRun(s, ' ');
        SqueezeEffect(d);
        VisibleDropRun(s, ' ');
        assert forall x :: x in d ==> x in s;
        if Squeeze(d) != [] {
          assert d[0] != ' ';
          SqueezeHead(d);
        }
        forall i | 0 <= i < |r| - 1 ensures !(r[i] == ' ' && r[i + 1] == ' ') {
          if i > 0 {
            assert r[i] == Squeeze(d)[i - 1] && r[i + 1] == Squeeze(d)[i];
          }
        }
      } else {
        SqueezeEffect(s[1..]);
        assert forall x :: x in s[1..] ==> x in s;
        forall i | 0 <= i < |r| - 1 ensures !(r[i] == ' ' && r[i + 1] == ' ') {
          if i > 0 {
            assert r[i] == Squeeze(s[1..])[i - 1] && r[i + 1] == Squeeze(s[1..])[i];
          }
        }
      }
    }
  }

  /** Squeezing keeps the first character when it is not a space. */
  lemma SqueezeHead(s: string)
    requires s != [] && s[0] != ' '
    ensures Squeeze(s) != [] && Squeeze(s)[0] == s[0]
  {
  }

  /**
   * The normalised text is the tweet with every maximal run of white space
   * replaced by one space; so it is clean and has the tweet's visible
   * characters.
   */
  lemma NormalizeClean(s: string)
    ensures Normalize(s) == Dedup(Blank(s))
    ensures Clean(Normalize(s))
    ensures Visible(Normalize(s)) == Visible(s)
  {
    SubRunsEffect(s);
    SqueezeEffect(SubRuns(s));
    SubRunsDedup(s);
    SqueezeDedup(SubRuns(s));
    var t := SubRuns(s);
    forall i | 0 <= i < |Normalize(s)| ensures Normalize(s)[i] != '\n' && Normalize(s)[i] != '　' {
      var c := Normalize(s)[i];
      if c != ' ' {
        var k :| 0 <= k < |t| && t[k] == c;
      }
    }
  }

  /** A clean text is left alone by both substitutions, so normalising twice is normalising once. */
  lemma {:induction false} CleanFixed(s: string)
    requires Clean(s)
    ensures SubRuns(s) == s && Squeeze(s) == s
    decreases |s|
  {
    if s != [] {
      assert Clean(s[1..]);
      CleanFixed(s[1..]);
      if s[0] == ' ' {
        assert DropRun(s, ' ') == s[1..] by {
          if |s| > 1 {
            assert s[1] != ' ';
          }
        }
      }
    }
  }

  lemma NormalizeIdempotent(s: string)
    ensures Normalize(Normalize(s)) == Normalize(s)
  {
    NormalizeClean(s);
    CleanFixed(Normalize(s));
  }

  /**
   * The words of a normalised text hold no white space, and only the first
   * and the last can be empty (when the text starts or ends with a space).
   */
  lemma WordsOfClean(s: string)
    requires Clean(s)
    ensures var ws := Split(s, ' ');
      && (forall i :: 0 <= i < |ws| ==> forall j :: 0 <= j < |ws[i]| ==> !IsBreak(ws[i][j]))
      && (forall i :: 0 < i < |ws| - 1 ==> ws[i] != "")
  {
    WordsOfCleanRec(s);
  }

  lemma {:induction false} WordsOfCleanRec(s: string)
    requires Clean(s)
    ensures var ws := Split(s, ' ');
      && (forall i :: 0 <= i < |ws| ==> forall j :: 0 <= j < |ws[i]| ==> !IsBreak(ws[i][j]))
      && (forall i :: 0 < i < |ws| - 1 ==> ws[i] != "")
      && (|ws| > 1 ==> ws[1] != "" || |ws| == 2)
    decreases |s|
  {
    var ws := Split(s, ' ');
    if ' ' in s {
      var k := FirstIndex(s, ' ');
      var rest := s[k + 1..];
      assert Clean(rest);
      WordsOfCleanRec(rest);
      var rs := Split(rest, ' ');
      assert ws == [s[..k]] + rs;
      assert forall j :: 0 <= j < k ==> s[..k][j] == s[j];
      if |rs| > 1 {
        assert rest != [];
        assert rest[0] == s[k + 1];
        assert rs[0] != "" by {
          assert ' ' in rest;
          assert FirstIndex(rest, ' ') > 0;
        }
      }
    }
  }
}
