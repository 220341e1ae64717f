/** Character classes and whitespace handling shared by the local corrector
    (app/page.tsx) and the correction endpoint (app/api/fix/route.ts).

    Classes follow ECMAScript regular expressions without the `u` flag:
    `\s` and `String.prototype.trim` use the same whitespace set, and `\w`,
    `\b` and the `i` flag only ever concern ASCII characters here, because
    every pattern in the corrector is written in ASCII. */
module Text {

  /** `\s`, and the set stripped by `trim`: the WhiteSpace and LineTerminator
      code points (tab, line tabulation, form feed, no-break space, byte order
      mark, the space separators of category Zs, line feed, carriage return,
      line separator and paragraph separator). */
  predicate IsSpace(c: char) {
    if c <= ' ' then
      // tab, line feed, line tabulation, form feed, carriage return, space
      c == ' ' || '\t' <= c <= '\r'
    else
      && '\U{00A0}' <= c
      && (|| c == '\U{00A0}' || c == '\U{1680}'
          || ('\U{2000}' <= c <= '\U{200A}')
          || c == '\U{2028}' || c == '\U{2029}' || c == '\U{202F}' || c == '\U{205F}'
          || c == '\U{3000}' || c == '\U{FEFF}')
  }

  predicate IsUpper(c: char) { 'A' <= c <= 'Z' }

  predicate IsLower(c: char) { 'a' <= c <= 'z' }

  /** `[A-Za-z]` */
  predicate IsLetter(c: char) { IsUpper(c) || IsLower(c) }

  /** `\w`, which also decides where `\b` holds: `[A-Za-z0-9_]`. */
  predicate IsWordChar(c: char) { IsLetter(c) || ('0' <= c <= '9') || c == '_' }

  /** `\b` at position `k` of `s`: exactly one of the characters on either
      side of `k` is a word character (outside the string counts as none). */
  predicate IsBoundary(s: string, k: nat)
    requires k <= |s|
  {
    (0 < k && IsWordChar(s[k - 1])) != (k < |s| && IsWordChar(s[k]))
  }

  /** The class `[,.!?;:]` of the two punctuation passes. */
  predicate IsPunct(c: char) {
    c == ',' || c == '.' || c == '!' || c == '?' || c == ';' || c == ':'
  }

  /** `toUpperCase` as the corrector uses it: only ever applied to `[a-z]`. */
  function ToUpper(c: char): (u: char)
    ensures IsLower(c) ==> IsUpper(u) && u as int == c as int - 32
    ensures !IsLower(c) ==> u == c
  {
    if IsLower(c) then (c as int - 32) as char else c
  }

  /** ASCII case folding, the meaning of the `i` flag for an ASCII pattern. */
  function ToLower(c: char): (l: char)
    ensures IsUpper(c) ==> IsLower(l) && l as int == c as int + 32
    ensures !IsUpper(c) ==> l == c
  {
    if IsUpper(c) then (c as int + 32) as char else c
  }

  lemma FoldUndoesUpper(c: char)
    ensures ToLower(ToUpper(c)) == ToLower(c)
    ensures IsWordChar(ToUpper(c)) <==> IsWordChar(c)
    ensures IsSpace(ToUpper(c)) <==> IsSpace(c)
  {
  }

  /** Folding neither creates nor destroys word characters. */
  lemma FoldKeepsWordChars(c: char)
    ensures IsWordChar(ToLower(c)) <==> IsWordChar(c)
  {
  }

  predicate IsBlank(s: string) {
    forall k :: 0 <= k < |s| ==> IsSpace(s[k])
  }

  /** Index of the first non-whitespace character at or after `i`. */
  function SpaceRunEnd(s: string, i: nat): (j: nat)
    requires i <= |s|
    ensures i <= j <= |s|
    ensures forall k :: i <= k < j ==> IsSpace(s[k])
    ensures j < |s| ==> !IsSpace(s[j])
    decreases |s| - i
  {
    if i < |s| && IsSpace(s[i]) then SpaceRunEnd(s, i + 1) else i
  }

  /** Inside `y`, a whitespace run of `x + y` is the run of `y`, shifted. */
  lemma {:induction false} SpaceRunEndShift(x: string, y: string, j: nat)
    requires j <= |y|
    ensures SpaceRunEnd(x + y, |x| + j) == |x| + SpaceRunEnd(y, j)
    decreases |y| - j
  {
    if j < |y| {
      assert (x + y)[|x| + j] == y[j];
      if IsSpace(y[j]) {
        SpaceRunEndShift(x, y, j + 1);
      }
    }
  }

  /** A run that ends inside `x` ends at the same place in `x + y`. */
  lemma {:induction false} SpaceRunEndPrefix(x: string, y: string, i: nat)
    requires i <= |x| && SpaceRunEnd(x, i) < |x|
    ensures SpaceRunEnd(x + y, i) == SpaceRunEnd(x, i)
    decreases |x| - i
  {
    assert (x + y)[i] == x[i];
    if IsSpace(x[i]) {
      SpaceRunEndPrefix(x, y, i + 1);
    }
  }

  /** A run that reaches the end of `x` goes on through the leading
      whitespace of `y`. */
  lemma {:induction false} SpaceRunEndThrough(x: string, y: string, i: nat)
    requires i <= |x| && SpaceRunEnd(x, i) == |x|
    ensures SpaceRunEnd(x + y, i) == |x| + SpaceRunEnd(y, 0)
    decreases |x| - i
  {
    if i == |x| {
      SpaceRunEndShift(x, y, 0);
    } else {
      assert (x + y)[i] == x[i];
      SpaceRunEndThrough(x, y, i + 1);
    }
  }

  /** Number of leading whitespace characters. */
  function LeadingSpaces(s: string): (n: nat)
    ensures n <= |s|
    ensures IsBlank(s[..n])
    ensures n < |s| ==> !IsSpace(s[n])
  {
    SpaceRunEnd(s, 0)
  }

  /** Index where the whitespace run ending just before `j` starts. */
  function SpaceRunStart(s: string, j: nat): (i: nat)
    requires j <= |s|
    ensures i <= j
    ensures forall k :: i <= k < j ==> IsSpace(s[k])
    ensures 0 < i ==> !IsSpace(s[i - 1])
    decreases j
  {
    if 0 < j && IsSpace(s[j - 1]) then SpaceRunStart(s, j - 1) else j
  }

  /** Number of trailing whitespace characters. */
  function TrailingSpaces(s: string): (n: nat)
    ensures n <= |s|
    ensures IsBlank(s[|s| - n..])
    ensures n < |s| ==> !IsSpace(s[|s| - n - 1])
  {
    var i := SpaceRunStart(s, |s|);
    assert forall k :: 0 <= k < |s| - i ==> s[i..][k] == s[i + k];
    |s| - i
  }

  /** `String.prototype.trim`: the slice between the leading and the trailing
      whitespace. */
  function Trim(s: string): (r: string)
    ensures LeadingSpaces(s) + |r| <= |s|
    ensures r == s[LeadingSpaces(s)..LeadingSpaces(s) + |r|]
    ensures IsBlank(s[..LeadingSpaces(s)]) && IsBlank(s[LeadingSpaces(s) + |r|..])
    ensures |r| > 0 ==> !IsSpace(r[0]) && !IsSpace(r[|r| - 1])
    ensures r == [] <==> IsBlank(s)
  {
    var a := LeadingSpaces(s);
    var t := s[a..];
    var b := TrailingSpaces(t);
    assert t[|t| - b..] == s[a + (|t| - b)..];
    assert s == s[..a] + t;
    t[..|t| - b]
  }

  /** The characters of `s` that are not whitespace, in order. */
  function Visible(s: string): string
  {
    if |s| == 0 then []
    else if IsSpace(s[0]) then Visible(s[1..])
    else [s[0]] + Visible(s[1..])
  }

  lemma {:induction false} VisibleAppend(a: string, b: string)
    ensures Visible(a + b) == Visible(a) + Visible(b)
    decreases |a|
  {
    if |a| > 0 {
      assert (a + b)[0] == a[0] && (a + b)[1..] == a[1..] + b;
      VisibleAppend(a[1..], b);
    } else {
      assert a + b == b;
    }
  }

  lemma {:induction false} VisibleOfBlank(s: string)
    requires IsBlank(s)
    ensures Visible(s) == []
    decreases |s|
  {
    if |s| > 0 {
      VisibleOfBlank(s[1..]);
    }
  }

  /** A text has visible characters exactly when it is not blank. */
  lemma {:induction false} VisibleEmptyIffBlank(s: string)
    ensures Visible(s) == [] <==> IsBlank(s)
    decreases |s|
  {
    if |s| > 0 {
      VisibleEmptyIffBlank(s[1..]);
      if IsBlank(s) {
        assert forall k :: 0 <= k < |s| - 1 ==> s[1..][k] == s[k + 1];
      }
      if IsSpace(s[0]) && IsBlank(s[1..]) {
        forall k | 0 <= k < |s|
          ensures IsSpace(s[k])
        {
          if k > 0 {
            assert s[k] == s[1..][k - 1];
          }
        }
      }
    }
  }

  /** Whitespace around a slice adds no visible character. */
  lemma VisibleOfPadded(s: string, a: nat, b: nat)
    requires a <= b <= |s|
    requires IsBlank(s[..a]) && IsBlank(s[b..])
    ensures Visible(s[a..b]) == Visible(s)
  {
    assert s == (s[..a] + s[a..b]) + s[b..];
    VisibleAppend(s[..a] + s[a..b], s[b..]);
    VisibleAppend(s[..a], s[a..b]);
    VisibleOfBlank(s[..a]);
    VisibleOfBlank(s[b..]);
  }

  /** Trimming never drops a visible character. */
  lemma TrimKeepsVisible(s: string)
    ensures Visible(Trim(s)) == Visible(s)
  {
    var a := LeadingSpaces(s);
    VisibleOfPadded(s, a, a + |Trim(s)|);
  }

  /** ASCII case folding of a whole string. */
  function LowerAll(s: string): (r: string)
    ensures |r| == |s|
    ensures forall k :: 0 <= k < |s| ==> r[k] == ToLower(s[k])
  {
    if |s| == 0 then [] else [ToLower(s[0])] + LowerAll(s[1..])
  }

  lemma Regroup(p: string, a: string, t: string)
    ensures p + (a + t) == (p + a) + t
  {
  }

  lemma SliceCons(s: string, i: nat, j: nat)
    requires i < j <= |s|
    ensures s[i..j] == [s[i]] + s[i + 1..j]
  {
  }
}
