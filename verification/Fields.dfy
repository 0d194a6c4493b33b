/** The input splitting of app.py: `re.split(r'[,\n]+', s)` for the start URLs (line 215) and
    `s.split(',')` for the allowed domains (line 206), each followed by the comprehension
    `[x.strip() for x in pieces if x.strip()]`. */
module Fields {
  import opened Text

  /** `s.split(sep)` for a set of one-character separators: a cut at every separator, so two
      adjacent separators leave an empty piece between them. `piece` is the text read since the
      last cut. */
  function SplitEvery(piece: string, s: string, seps: set<char>): (r: seq<string>)
    ensures |r| >= 1
    decreases |s|
  {
    if s == [] then [piece]
    else if s[0] in seps then [piece] + SplitEvery([], s[1..], seps)
    else SplitEvery(piece + [s[0]], s[1..], seps)
  }

  /** `re.split('[seps]+', s)`: a cut at every maximal run of separators. A run at the very
      start or end still leaves an empty first or last piece, as in Python. */
  function SplitRuns(piece: string, s: string, seps: set<char>): (r: seq<string>)
    ensures |r| >= 1
    decreases |s|
  {
    if s == [] then [piece]
    else if s[0] in seps && |s| > 1 && s[1] in seps then SplitRuns(piece, s[1..], seps)
    else if s[0] in seps then [piece] + SplitRuns([], s[1..], seps)
    else SplitRuns(piece + [s[0]], s[1..], seps)
  }

  /** `[x.strip() for x in pieces if x.strip()]`. */
  function CleanFields(pieces: seq<string>): (r: seq<string>)
    ensures forall i :: 0 <= i < |r| ==> r[i] != [] && NoEdgeSpace(r[i])
    ensures |r| <= |pieces|
  {
    if pieces == [] then []
    else (if Strip(pieces[0]) != [] then [Strip(pieces[0])] else []) + CleanFields(pieces[1..])
  }

  predicate Free(s: string, seps: set<char>)
  {
    forall i :: 0 <= i < |s| ==> s[i] !in seps
  }

  /** `sep.join(pieces)`. */
  function Join(pieces: seq<string>, sep: char): string
  {
    if pieces == [] then []
    else if |pieces| == 1 then pieces[0]
    else pieces[0] + [sep] + Join(pieces[1..], sep)
  }

  /** Splitting at every separator loses nothing: joining the pieces back with the separator
      gives the text read so far followed by the rest of the input. */
  lemma {:induction false} SplitJoin(piece: string, s: string, sep: char)
    ensures Join(SplitEvery(piece, s, {sep}), sep) == piece + s
    decreases |s|
  {
    if s == [] {
      assert piece + s == piece;
    } else if s[0] == sep {
      SplitJoin([], s[1..], sep);
      assert [] + s[1..] == s[1..];
      assert piece + s == piece + [sep] + s[1..];
    } else {
      SplitJoin(piece + [s[0]], s[1..], sep);
      assert piece + [s[0]] + s[1..] == piece + s;
    }
  }

  /** No piece contains a separator. */
  lemma {:induction false} SplitEveryFree(piece: string, s: string, seps: set<char>)
    requires Free(piece, seps)
    ensures forall i :: 0 <= i < |SplitEvery(piece, s, seps)| ==> Free(SplitEvery(piece, s, seps)[i], seps)
    decreases |s|
  {
    if s != [] {
      if s[0] in seps {
        SplitEveryFree([], s[1..], seps);
      } else {
        SplitEveryFree(piece + [s[0]], s[1..], seps);
      }
    }
  }

  lemma {:induction false} SplitRunsFree(piece: string, s: string, seps: set<char>)
    requires Free(piece, seps)
    ensures forall i :: 0 <= i < |SplitRuns(piece, s, seps)| ==> Free(SplitRuns(piece, s, seps)[i], seps)
    decreases |s|
  {
    if s != [] {
      if s[0] in seps && |s| > 1 && s[1] in seps {
        SplitRunsFree(piece, s[1..], seps);
      } else if s[0] in seps {
        SplitRunsFree([], s[1..], seps);
      } else {
        SplitRunsFree(piece + [s[0]], s[1..], seps);
      }
    }
  }

  /** Input without separators is one piece. */
  lemma {:induction false} SplitEveryNone(piece: string, s: string, seps: set<char>)
    requires Free(s, seps)
    ensures SplitEvery(piece, s, seps) == [piece + s]
    decreases |s|
  {
    if s == [] {
      assert piece + s == piece;
    } else {
      SplitEveryNone(piece + [s[0]], s[1..], seps);
      assert piece + [s[0]] + s[1..] == piece + s;
    }
  }

  lemma CleanFieldsCons(x: string, xs: seq<string>)
    ensures CleanFields([x] + xs) == (if Strip(x) != [] then [Strip(x)] else []) + CleanFields(xs)
  {
    assert ([x] + xs)[1..] == xs;
  }

  /** Once empty pieces are dropped, cutting at runs of separators and cutting at every separator
      give the same fields. */
  lemma {:induction false} RunsAsEvery(piece: string, s: string, seps: set<char>)
    ensures CleanFields(SplitRuns(piece, s, seps)) == CleanFields(SplitEvery(piece, s, seps))
    decreases |s|
  {
    if s != [] {
      if s[0] in seps && |s| > 1 && s[1] in seps {
        RunsAsEvery(piece, s[1..], seps);
        assert s[1..][1..] == s[2..];
        CleanFieldsCons(piece, SplitEvery([], s[2..], seps));
        CleanFieldsCons([], SplitEvery([], s[2..], seps));
        CleanFieldsCons(piece, [[]] + SplitEvery([], s[2..], seps));
        assert Strip([]) == [];
      } else if s[0] in seps {
        RunsAsEvery([], s[1..], seps);
        CleanFieldsCons(piece, SplitRuns([], s[1..], seps));
        CleanFieldsCons(piece, SplitEvery([], s[1..], seps));
      } else {
        RunsAsEvery(piece + [s[0]], s[1..], seps);
      }
    }
  }

  /** A field never contains a separator: it lies inside one piece. */
  lemma {:induction false} CleanFieldsFree(pieces: seq<string>, seps: set<char>)
    requires forall i :: 0 <= i < |pieces| ==> Free(pieces[i], seps)
    ensures forall i :: 0 <= i < |CleanFields(pieces)| ==> Free(CleanFields(pieces)[i], seps)
    decreases |pieces|
  {
    if pieces != [] {
      CleanFieldsFree(pieces[1..], seps);
      var t := Strip(pieces[0]);
      forall i | 0 <= i < |t| ensures t[i] !in seps {
        assert t[i] in t;
      }
    }
  }

  /** A separator cuts the input in two independent halves. */
  lemma {:induction false} SplitEveryAppend(piece: string, a: string, c: char, b: string, seps: set<char>)
    requires c in seps
    ensures SplitEvery(piece, a + [c] + b, seps) == SplitEvery(piece, a, seps) + SplitEvery([], b, seps)
    decreases |a|
  {
    if a == [] {
      assert a + [c] + b == [c] + b && ([c] + b)[1..] == b;
    } else {
      assert (a + [c] + b)[0] == a[0] && (a + [c] + b)[1..] == a[1..] + [c] + b;
      if a[0] in seps {
        SplitEveryAppend([], a[1..], c, b, seps);
      } else {
        SplitEveryAppend(piece + [a[0]], a[1..], c, b, seps);
      }
    }
  }

  lemma {:induction false} CleanFieldsAppend(x: seq<string>, y: seq<string>)
    ensures CleanFields(x + y) == CleanFields(x) + CleanFields(y)
    decreases |x|
  {
    if x == [] {
      assert x + y == y;
    } else {
      assert x + y == [x[0]] + (x[1..] + y);
      CleanFieldsCons(x[0], x[1..] + y);
      CleanFieldsAppend(x[1..], y);
    }
  }

  /** A string with no whitespace at either end is its own strip. */
  lemma StripOfTrimmed(s: string)
    requires NoEdgeSpace(s)
    ensures Strip(s) == s
  {
  }
}
