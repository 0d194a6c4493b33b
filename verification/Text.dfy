/** The string primitives of app.py: Python's whitespace class, `str.strip()`,
    `re.sub(r'\s+', ' ', s)`, and the substring test `sub in s`. */
module Text {

  /** Python's `str.isspace()` for one character; the regular-expression class `\s` of a
      `str` pattern matches exactly these characters too. */
  predicate IsSpace(c: char)
  {
    var n := c as int;
    (9 <= n <= 13) || (28 <= n <= 32) || n == 0x85 || n == 0xA0 || n == 0x1680
    || (0x2000 <= n <= 0x200A) || n == 0x2028 || n == 0x2029 || n == 0x202F
    || n == 0x205F || n == 0x3000
  }

  /** The characters of `s` that are not whitespace, in order. */
  function NonSpace(s: string): string
  {
    if s == [] then [] else (if IsSpace(s[0]) then [] else [s[0]]) + NonSpace(s[1..])
  }

  predicate NoEdgeSpace(s: string)
  {
    s == [] || (!IsSpace(s[0]) && !IsSpace(s[|s| - 1]))
  }

  predicate NoDoubleSpace(s: string)
  {
    forall i, j :: 0 <= i < |s| && 0 <= j < |s| && j == i + 1 ==> !IsSpace(s[i]) || !IsSpace(s[j])
  }

  /** Every whitespace character is a plain blank. */
  predicate SpacesBlank(s: string)
  {
    forall i :: 0 <= i < |s| && IsSpace(s[i]) ==> s[i] == ' '
  }

  /** The shape of a description after the clean-up pass. */
  predicate Clean(s: string)
  {
    NoEdgeSpace(s) && NoDoubleSpace(s) && SpacesBlank(s)
  }

  lemma {:induction false} NonSpaceAppend(a: string, b: string)
    ensures NonSpace(a + b) == NonSpace(a) + NonSpace(b)
  {
    if a == [] {
      assert a + b == b;
    } else {
      assert (a + b)[1..] == a[1..] + b;
      NonSpaceAppend(a[1..], b);
    }
  }

  /** Python's `s.lstrip()`: drops the leading whitespace and nothing else. */
  function TrimLeft(s: string): (r: string)
    ensures |r| <= |s|
    ensures r == [] || !IsSpace(r[0])
    ensures forall i :: 0 <= i < |s| - |r| ==> IsSpace(s[i])
  {
    if s != [] && IsSpace(s[0]) then TrimLeft(s[1..]) else s
  }

  /** What `lstrip` keeps is a suffix of its input. */
  lemma {:induction false} TrimLeftSuffix(s: string)
    ensures TrimLeft(s) == s[|s| - |TrimLeft(s)|..]
    decreases |s|
  {
    if s != [] && IsSpace(s[0]) {
      TrimLeftSuffix(s[1..]);
    }
  }

  /** Python's `s.rstrip()`: drops the trailing whitespace and nothing else. */
  function TrimRight(s: string): (r: string)
    ensures |r| <= |s| && forall i :: 0 <= i < |r| ==> r[i] == s[i]
    ensures r == [] || !IsSpace(r[|r| - 1])
    ensures forall i :: |r| <= i < |s| ==> IsSpace(s[i])
  {
    if s != [] && IsSpace(s[|s| - 1]) then TrimRight(s[..|s| - 1]) else s
  }

  /** Python's `s.strip()` with no argument. */
  function Strip(s: string): (r: string)
    ensures NoEdgeSpace(r)
    ensures NoDoubleSpace(s) ==> NoDoubleSpace(r)
    ensures SpacesBlank(s) ==> SpacesBlank(r)
    ensures forall c :: c in r ==> c in s
  {
    var t := TrimLeft(s);
    var r := TrimRight(t);
    StripShape(s, t, r);
    r
  }

  lemma StripShape(s: string, t: string, r: string)
    requires t == TrimLeft(s) && r == TrimRight(t)
    ensures |s| - |t| + |r| <= |s| && r == s[|s| - |t|..|s| - |t| + |r|]
    ensures NoEdgeSpace(r)
    ensures NoDoubleSpace(s) ==> NoDoubleSpace(r)
    ensures SpacesBlank(s) ==> SpacesBlank(r)
    ensures forall c :: c in r ==> c in s
  {
    TrimLeftSuffix(s);
    var k := |s| - |t|;
    forall i | 0 <= i < |r| ensures r[i] == s[k + i] {
      assert r[i] == t[i];
    }
    assert r == s[k..k + |r|];
    InfixKeeps(s, k, r);
  }

  /** A contiguous piece of a string keeps the string's whitespace shape and its characters. */
  lemma InfixKeeps(s: string, k: nat, r: string)
    requires k + |r| <= |s| && forall i :: 0 <= i < |r| ==> r[i] == s[k + i]
    ensures NoDoubleSpace(s) ==> NoDoubleSpace(r)
    ensures SpacesBlank(s) ==> SpacesBlank(r)
    ensures forall c :: c in r ==> c in s
  {
    forall c | c in r ensures c in s {
      var i :| 0 <= i < |r| && r[i] == c;
      assert s[k + i] == c;
    }
    if NoDoubleSpace(s) {
      forall i, j | 0 <= i < |r| && 0 <= j < |r| && j == i + 1
        ensures !IsSpace(r[i]) || !IsSpace(r[j])
      {
        assert r[i] == s[k + i] && r[j] == s[k + j];
      }
    }
  }

  /** Python's `re.sub(r'\s+', ' ', s)`: every maximal run of whitespace becomes one blank. */
  function Collapse(s: string): (r: string)
    ensures NoDoubleSpace(r) && SpacesBlank(r)
    ensures s != [] ==> r != [] && r[0] == (if IsSpace(s[0]) then ' ' else s[0])
    decreases |s|
  {
    if s == [] then []
    else if IsSpace(s[0]) && |s| > 1 && IsSpace(s[1]) then Collapse(s[1..])
    else [if IsSpace(s[0]) then ' ' else s[0]] + Collapse(s[1..])
  }

  /** The clean-up applied to every description: `re.sub(r'\s+', ' ', s).strip()`. */
  function Normalize(s: string): (r: string)
    ensures Clean(r)
  {
    Strip(Collapse(s))
  }

  lemma {:induction false} TrimLeftKeepsText(s: string)
    ensures NonSpace(TrimLeft(s)) == NonSpace(s)
  {
    if s != [] && IsSpace(s[0]) {
      TrimLeftKeepsText(s[1..]);
    }
  }

  lemma {:induction false} TrimRightKeepsText(s: string)
    ensures NonSpace(TrimRight(s)) == NonSpace(s)
  {
    if s != [] && IsSpace(s[|s| - 1]) {
      TrimRightKeepsText(s[..|s| - 1]);
      NonSpaceAppend(s[..|s| - 1], [s[|s| - 1]]);
      assert s == s[..|s| - 1] + [s[|s| - 1]];
    }
  }

  lemma {:induction false} CollapseKeepsText(s: string)
    ensures NonSpace(Collapse(s)) == NonSpace(s)
    decreases |s|
  {
    if s != [] {
      CollapseKeepsText(s[1..]);
      assert IsSpace(' ');
    }
  }

  /** The clean-up only removes or replaces whitespace: the other characters survive, in order. */
  lemma NormalizeKeepsText(s: string)
    ensures NonSpace(Normalize(s)) == NonSpace(s)
  {
    var c := Collapse(s);
    CollapseKeepsText(s);
    TrimLeftKeepsText(c);
    TrimRightKeepsText(TrimLeft(c));
  }

  /** A description cleans up to "" exactly when it holds nothing but whitespace. */
  lemma NormalizeEmptyIff(s: string)
    ensures Normalize(s) == [] <==> NonSpace(s) == []
  {
    var r := Normalize(s);
    NormalizeKeepsText(s);
    if r != [] {
      assert !IsSpace(r[0]);
      assert NonSpace(r) == [r[0]] + NonSpace(r[1..]);
    }
  }

  /** A string that already has the clean shape is its own collapse. */
  lemma {:induction false} CollapseOfClean(s: string)
    requires NoDoubleSpace(s) && SpacesBlank(s)
    ensures Collapse(s) == s
  {
    if s != [] {
      assert NoDoubleSpace(s[1..]) && SpacesBlank(s[1..]);
      if IsSpace(s[0]) {
        assert TrimLeft(s) == s[1..];
      }
      CollapseOfClean(s[1..]);
    }
  }

  lemma NormalizeOfClean(s: string)
    requires Clean(s)
    ensures Normalize(s) == s
  {
    CollapseOfClean(s);
  }

  /** Running the clean-up twice is the same as running it once. */
  lemma NormalizeIdempotent(s: string)
    ensures Normalize(Normalize(s)) == Normalize(s)
  {
    NormalizeOfClean(Normalize(s));
  }

  /** Python's `sub in s` for strings: `sub` occurs in `s` at some position. */
  predicate Contains(s: string, sub: string)
    decreases |s|
  {
    sub <= s || (s != [] && Contains(s[1..], sub))
  }

  /** `sub in s` holds wherever `sub` occurs, not only at the end. */
  lemma {:induction false} ContainsInfix(a: string, sub: string, b: string)
    ensures Contains(a + sub + b, sub)
  {
    if a == [] {
      assert a + sub + b == sub + b;
    } else {
      assert (a + sub + b)[1..] == a[1..] + sub + b;
      ContainsInfix(a[1..], sub, b);
    }
  }

  /** A non-blank character passes through the collapse unchanged. */
  lemma CollapseKeep(x: char, t: string)
    requires !IsSpace(x)
    ensures Collapse([x] + t) == [x] + Collapse(t)
  {
    assert ([x] + t)[1..] == t;
  }

  /** A run of whitespace becomes one blank. */
  lemma {:induction false} CollapseRun(sp: string, t: string)
    requires sp != [] && forall i :: 0 <= i < |sp| ==> IsSpace(sp[i])
    requires t == [] || !IsSpace(t[0])
    ensures Collapse(sp + t) == [' '] + Collapse(t)
    decreases |sp|
  {
    assert (sp + t)[1..] == sp[1..] + t;
    if |sp| == 1 {
      assert sp[1..] + t == t;
    } else {
      CollapseRun(sp[1..], t);
    }
  }

  /** The routing joins the pieces "a\n\n  b" and "c" with one blank; the clean-up turns the result
      into "a b c" (shown for any three non-whitespace characters in place of a, b and c). */
  lemma NormalizeExample(a: char, b: char, c: char)
    requires !IsSpace(a) && !IsSpace(b) && !IsSpace(c)
    ensures Normalize([a, '\n', '\n', ' ', ' ', b] + " " + [c]) == [a, ' ', b, ' ', c]
  {
    var sp := ['\n', '\n', ' ', ' '];
    var s := [a, '\n', '\n', ' ', ' ', b] + " " + [c];
    assert s == [a] + (sp + ([b] + ([' '] + [c])));
    CollapseKeep(c, []);
    assert [c] + [] == [c];
    CollapseRun([' '], [c]);
    CollapseKeep(b, [' '] + [c]);
    CollapseRun(sp, [b] + ([' '] + [c]));
    CollapseKeep(a, sp + ([b] + ([' '] + [c])));
    assert Collapse(s) == [a, ' ', b, ' ', c];
    NormalizeOfClean([a, ' ', b, ' ', c]);
  }
}
