/** The shape the local corrector promises for its output: how whitespace,
    punctuation and the pronoun "i" may sit next to each other. Each property
    is local (it looks at neighbouring characters only), so it is stated once
    here and then carried through the passes of app/page.tsx one by one. */
module Shape {
  import opened Text

  /** Pairs of neighbouring characters the corrector removes. */
  datatype Adjacency =
    | DoubleSpace       // two whitespace characters in a row (line 39)
    | SpaceBeforePunct  // whitespace directly before one of `,.!?;:` (line 45)
    | LetterAfterPunct  // one of `,.!?;:` directly before an ASCII letter (line 48)

  predicate Clash(kind: Adjacency, a: char, b: char) {
    match kind
    case DoubleSpace => IsSpace(a) && IsSpace(b)
    case SpaceBeforePunct => IsSpace(a) && IsPunct(b)
    case LetterAfterPunct => IsPunct(a) && IsLetter(b)
  }

  /** No two neighbouring characters of `t` form a `kind` pair. */
  predicate Avoids(kind: Adjacency, t: string) {
    forall k :: 0 < k < |t| ==> !Clash(kind, t[k - 1], t[k])
  }

  /** Every whitespace character of `t` is U+0020. */
  predicate OnlyPlainSpaces(t: string) {
    forall k :: 0 <= k < |t| && IsSpace(t[k]) ==> t[k] == ' '
  }

  predicate IsTrimmed(t: string) {
    |t| == 0 || (!IsSpace(t[0]) && !IsSpace(t[|t| - 1]))
  }

  /** `/\bi\b/` matches at `k`: the lower-case letter i standing alone as a
      maximal run of word characters. */
  predicate IsLoneIAt(t: string, k: nat)
    requires k < |t|
  {
    t[k] == 'i' && IsBoundary(t, k) && IsBoundary(t, k + 1)
  }

  /** `/\bi\b/` finds nothing in `t`. */
  predicate NoLoneI(t: string) {
    forall k :: 0 <= k < |t| ==> !IsLoneIAt(t, k)
  }

  /** Position `k` of a piece `t` of a longer string has a word-character
      neighbour; `prev` says whether the character just before the piece is a
      word character. */
  predicate HasWordNeighbour(prev: bool, t: string, k: nat)
    requires k < |t|
  {
    (if k == 0 then prev else IsWordChar(t[k - 1])) || (k + 1 < |t| && IsWordChar(t[k + 1]))
  }

  /** `NoLoneI` for a piece `t` of a longer string. */
  predicate NoLoneIAfter(prev: bool, t: string) {
    forall k :: 0 <= k < |t| && t[k] == 'i' ==> HasWordNeighbour(prev, t, k)
  }

  /** Everything the corrector promises about the spacing and punctuation of
      its result. */
  predicate Normalised(t: string) {
    && IsTrimmed(t)
    && OnlyPlainSpaces(t)
    && Avoids(DoubleSpace, t)
    && Avoids(SpaceBeforePunct, t)
    && Avoids(LetterAfterPunct, t)
    && NoLoneI(t)
  }

  lemma NoLoneIAtStart(t: string)
    ensures NoLoneIAfter(false, t) <==> NoLoneI(t)
  {
    forall k | 0 <= k < |t|
      ensures (t[k] == 'i' ==> HasWordNeighbour(false, t, k)) <==> !IsLoneIAt(t, k)
    {
    }
  }

  /** A pair can only arise inside one of two pieces or where they meet. */
  lemma AvoidsJoin(kind: Adjacency, a: string, b: string)
    requires Avoids(kind, a) && Avoids(kind, b)
    requires |a| > 0 && |b| > 0 ==> !Clash(kind, a[|a| - 1], b[0])
    ensures Avoids(kind, a + b)
  {
    var t := a + b;
    forall k | 0 < k < |t|
      ensures !Clash(kind, t[k - 1], t[k])
    {
      if k < |a| {
        assert t[k - 1] == a[k - 1] && t[k] == a[k];
      } else if k == |a| {
        assert t[k - 1] == a[|a| - 1] && t[k] == b[0];
      } else {
        assert t[k - 1] == b[k - 1 - |a|] && t[k] == b[k - |a|];
      }
    }
  }

  lemma PlainSpacesJoin(a: string, b: string)
    requires OnlyPlainSpaces(a) && OnlyPlainSpaces(b)
    ensures OnlyPlainSpaces(a + b)
  {
    var t := a + b;
    forall k | 0 <= k < |t| && IsSpace(t[k])
      ensures t[k] == ' '
    {
      if k < |a| {
        assert t[k] == a[k];
      } else {
        assert t[k] == b[k - |a|];
      }
    }
  }

  /** Gluing a non-empty piece `c` in front of a piece `t` that has no lone i:
      every i of `c` needs a word-character neighbour, and the last character
      of `c` must be a word character whenever `t` relied on one before it. */
  lemma NoLoneIJoin(prev: bool, c: string, tPrev: bool, t: string)
    requires |c| > 0
    requires NoLoneIAfter(tPrev, t)
    requires tPrev ==> IsWordChar(c[|c| - 1])
    requires forall k :: 0 <= k < |c| && c[k] == 'i' ==>
      HasWordNeighbour(prev, c, k) || (k + 1 == |c| && |t| > 0 && IsWordChar(t[0]))
    ensures NoLoneIAfter(prev, c + t)
  {
    var u := c + t;
    forall k | 0 <= k < |u| && u[k] == 'i'
      ensures HasWordNeighbour(prev, u, k)
    {
      if k < |c| {
        assert u[k] == c[k];
        assert c[k] == 'i';
        assert HasWordNeighbour(prev, c, k) || (k + 1 == |c| && |t| > 0 && IsWordChar(t[0]));
        if k > 0 {
          assert u[k - 1] == c[k - 1];
        }
        if k + 1 < |c| {
          assert u[k + 1] == c[k + 1];
        } else if |t| > 0 {
          assert u[k + 1] == t[0];
        }
      } else {
        var j := k - |c|;
        assert u[k] == t[j];
        assert t[j] == 'i';
        assert HasWordNeighbour(tPrev, t, j);
        if j == 0 {
          assert u[k - 1] == c[|c| - 1];
        } else {
          assert u[k - 1] == t[j - 1];
        }
        if j + 1 < |t| {
          assert u[k + 1] == t[j + 1];
        }
      }
    }
  }

  /** A single character glued in front of a piece with no lone i. */
  lemma NoLoneIJoinChar(prev: bool, x: char, t: string)
    requires NoLoneIAfter(IsWordChar(x), t)
    requires x == 'i' ==> prev || (|t| > 0 && IsWordChar(t[0]))
    ensures NoLoneIAfter(prev, [x] + t)
  {
    NoLoneIJoin(prev, [x], IsWordChar(x), t);
  }

  /** Cutting away whitespace at either end keeps every neighbourhood
      property of what remains. */
  lemma SliceKeepsShape(s: string, a: nat, b: nat)
    requires a <= b <= |s|
    requires 0 < a ==> IsSpace(s[a - 1])
    requires b < |s| ==> IsSpace(s[b])
    ensures forall kind :: Avoids(kind, s) ==> Avoids(kind, s[a..b])
    ensures OnlyPlainSpaces(s) ==> OnlyPlainSpaces(s[a..b])
    ensures NoLoneI(s) ==> NoLoneI(s[a..b])
  {
    var t := s[a..b];
    forall kind | Avoids(kind, s)
      ensures Avoids(kind, t)
    {
      forall k | 0 < k < |t|
        ensures !Clash(kind, t[k - 1], t[k])
      {
        assert t[k - 1] == s[a + k - 1] && t[k] == s[a + k];
      }
    }
    if NoLoneI(s) {
      forall k | 0 <= k < |t|
        ensures !IsLoneIAt(t, k)
      {
        assert !IsLoneIAt(s, a + k);
        assert t[k] == s[a + k];
        assert IsBoundary(t, k) == IsBoundary(s, a + k);
        if k + 1 < |t| {
          assert t[k + 1] == s[a + k + 1];
        }
        assert IsBoundary(t, k + 1) == IsBoundary(s, a + k + 1);
      }
    }
  }
}
