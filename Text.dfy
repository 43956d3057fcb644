/** Text operations the search relies on: Python's `str.split` on one
    separator character and its inverse `join`, ASCII case folding (the
    stand-in for the database's case-insensitive `LIKE`), substring
    containment, and Python's ordering `<` on `str`. */
module Text {

  /** Lower-cases an ASCII letter; every other character is left as it is. */
  function Lower(c: char): char
  {
    if 'A' <= c <= 'Z' then (c as int + 32) as char else c
  }

  /** Folds a whole string to lower case, character by character. */
  function Fold(s: string): (r: string)
    ensures |r| == |s|
  {
    if |s| == 0 then "" else [Lower(s[0])] + Fold(s[1..])
  }

  lemma {:induction false} FoldAt(s: string, i: nat)
    requires i < |s|
    ensures Fold(s)[i] == Lower(s[i])
  {
    if i > 0 {
      FoldAt(s[1..], i - 1);
    }
  }

  /** Folding twice is folding once, so a folded query matches as its original. */
  lemma {:induction false} FoldIdempotent(s: string)
    ensures Fold(Fold(s)) == Fold(s)
  {
    if |s| > 0 {
      FoldIdempotent(s[1..]);
      assert Fold(s)[1..] == Fold(s[1..]);
    }
  }

  predicate IsPrefix(p: string, s: string)
  {
    |p| <= |s| && s[..|p|] == p
  }

  /** `p in s` for Python strings: `p` occurs somewhere in `s` as a block of
      consecutive characters. The empty string occurs in every string. */
  predicate Contains(s: string, p: string)
    decreases |s|
  {
    IsPrefix(p, s) || (|s| > 0 && Contains(s[1..], p))
  }

  /** `p` occurs in `s` starting at index `k`. */
  predicate OccursAt(s: string, p: string, k: int)
  {
    0 <= k <= |s| - |p| && s[k..k + |p|] == p
  }

  /** Containment holds exactly when `p` occurs at some index of `s`. */
  lemma {:induction false} ContainsIffOccurs(s: string, p: string)
    ensures Contains(s, p) <==> exists k :: OccursAt(s, p, k)
  {
    if Contains(s, p) {
      if IsPrefix(p, s) {
        assert OccursAt(s, p, 0);
      } else {
        ContainsIffOccurs(s[1..], p);
        var k :| OccursAt(s[1..], p, k);
        assert s[k + 1..k + 1 + |p|] == s[1..][k..k + |p|];
        assert OccursAt(s, p, k + 1);
      }
    }
    if exists k :: OccursAt(s, p, k) {
      var k :| OccursAt(s, p, k);
      if k == 0 {
        assert IsPrefix(p, s);
      } else {
        assert s[1..][k - 1..k - 1 + |p|] == s[k..k + |p|];
        assert OccursAt(s[1..], p, k - 1);
        ContainsIffOccurs(s[1..], p);
      }
    }
  }

  /** Every character of a contained string is a character of the container. */
  lemma ContainsChars(s: string, p: string, c: char)
    ensures Contains(s, p) && c in p ==> c in s
  {
    if Contains(s, p) && c in p {
      ContainsIffOccurs(s, p);
      var k :| OccursAt(s, p, k);
      var i :| 0 <= i < |p| && p[i] == c;
      assert s[k + i] == s[k..k + |p|][i];
    }
  }

  /** An occurrence starts with the first two characters of what occurs. */
  lemma OccursStarts(s: string, p: string, k: int)
    requires |p| >= 2
    ensures OccursAt(s, p, k) ==> s[k] == p[0] && s[k + 1] == p[1]
  {
    if OccursAt(s, p, k) {
      assert s[k..k + |p|][0] == s[k] && s[k..k + |p|][1] == s[k + 1];
    }
  }

  /** A string whose first two characters never stand side by side in `s`
      does not occur in `s`. */
  lemma NoAdjacentPair(s: string, p: string)
    requires |p| >= 2
    requires forall k :: 0 <= k < |s| - 1 ==> s[k] != p[0] || s[k + 1] != p[1]
    ensures !Contains(s, p)
  {
    ContainsIffOccurs(s, p);
    forall k
      ensures !OccursAt(s, p, k)
    {
      OccursStarts(s, p, k);
    }
  }

  /** A string of the same length as `s` occurs in `s` only if it is `s`. */
  lemma SameLengthContains(s: string, p: string)
    requires |s| == |p|
    ensures Contains(s, p) <==> s == p
  {
    ContainsIffOccurs(s, p);
    if s == p {
      assert OccursAt(s, p, 0);
    }
  }

  /** The `name__icontains=word` test: containment after folding both sides. */
  predicate IContains(s: string, p: string)
  {
    Contains(Fold(s), Fold(p))
  }

  /** An empty word is contained in every string, whatever its case. */
  lemma EmptyWordMatches(s: string)
    ensures IContains(s, "")
  {
    assert IsPrefix(Fold(""), Fold(s));
  }

  /** Case-insensitive matching does not see the case of either argument. */
  lemma IContainsIgnoresCase(s: string, p: string)
    ensures IContains(s, p) == IContains(Fold(s), Fold(p))
  {
    FoldIdempotent(s);
    FoldIdempotent(p);
  }

  /** Python's `a < b` on `str`: lexicographic on code points, and a proper
      prefix is smaller than the string it begins. */
  predicate Less(a: string, b: string)
    decreases |a|
  {
    |b| > 0 && (|a| == 0 || a[0] < b[0] || (a[0] == b[0] && Less(a[1..], b[1..])))
  }

  /** `Less` is a strict total order: irreflexive, transitive and total. */
  lemma {:induction false} LessIrreflexive(a: string)
    ensures !Less(a, a)
  {
    if |a| > 0 {
      LessIrreflexive(a[1..]);
    }
  }

  lemma {:induction false} LessTransitive(a: string, b: string, c: string)
    requires Less(a, b) && Less(b, c)
    ensures Less(a, c)
  {
    if |a| > 0 && a[0] == b[0] && b[0] == c[0] {
      LessTransitive(a[1..], b[1..], c[1..]);
    }
  }

  lemma {:induction false} LessTotal(a: string, b: string)
    requires a != b
    ensures Less(a, b) || Less(b, a)
  {
    if |a| > 0 && |b| > 0 && a[0] == b[0] {
      assert a == [a[0]] + a[1..] && b == [b[0]] + b[1..];
      LessTotal(a[1..], b[1..]);
    }
  }

  /** Number of occurrences of the character `c` in `s`. */
  function Occurrences(s: string, c: char): nat
  {
    if |s| == 0 then 0 else (if s[0] == c then 1 else 0) + Occurrences(s[1..], c)
  }

  /** Python's `s.split(sep)` for a one-character separator: the pieces
      between separators, empty pieces included, and always at least one. */
  function Split(s: string, sep: char): (words: seq<string>)
    ensures |words| >= 1
    ensures forall w :: w in words ==> sep !in w
  {
    if |s| == 0 then [""]
    else
      var rest := Split(s[1..], sep);
      if s[0] == sep then [""] + rest
      else [[s[0]] + rest[0]] + rest[1..]
  }

  /** Python's `sep.join(words)`. */
  function Join(words: seq<string>, sep: char): string
  {
    if |words| == 0 then ""
    else if |words| == 1 then words[0]
    else words[0] + [sep] + Join(words[1..], sep)
  }

  /** Splitting yields one more word than there are separators. */
  lemma {:induction false} SplitCount(s: string, sep: char)
    ensures |Split(s, sep)| == Occurrences(s, sep) + 1
  {
    if |s| > 0 {
      SplitCount(s[1..], sep);
    }
  }

  /** Joining the words back with the separator gives the query again. */
  lemma {:induction false} JoinSplit(s: string, sep: char)
    ensures Join(Split(s, sep), sep) == s
  {
    if |s| > 0 {
      var rest := Split(s[1..], sep);
      JoinSplit(s[1..], sep);
      if s[0] == sep {
        assert ([""] + rest)[1..] == rest;
        assert s == [s[0]] + s[1..];
      } else {
        var words := [[s[0]] + rest[0]] + rest[1..];
        if |rest| == 1 {
          assert s == [s[0]] + s[1..];
        } else {
          assert words[1..] == rest[1..];
          assert Join(rest, sep) == rest[0] + [sep] + Join(rest[1..], sep);
          assert s == [s[0]] + s[1..];
        }
      }
    }
  }

  /** A separator-free prefix glues onto the first word of what follows. */
  lemma {:induction false} SplitGlue(w: string, t: string, sep: char)
    requires sep !in w
    ensures Split(w + t, sep) == [w + Split(t, sep)[0]] + Split(t, sep)[1..]
  {
    if |w| > 0 {
      SplitGlue(w[1..], t, sep);
      assert (w + t)[1..] == w[1..] + t;
      assert [w[0]] + (w[1..] + Split(t, sep)[0]) == w + Split(t, sep)[0];
    } else {
      assert w + t == t;
      assert w + Split(t, sep)[0] == Split(t, sep)[0];
      assert Split(t, sep) == [Split(t, sep)[0]] + Split(t, sep)[1..];
    }
  }

  /** Words that hold no separator are recovered by splitting their join. */
  lemma {:induction false} SplitJoin(words: seq<string>, sep: char)
    requires |words| >= 1
    requires forall w :: w in words ==> sep !in w
    ensures Split(Join(words, sep), sep) == words
  {
    if |words| == 1 {
      SplitGlue(words[0], "", sep);
      assert words[0] + "" == words[0];
    } else {
      var tail := Join(words[1..], sep);
      SplitJoin(words[1..], sep);
      assert Join(words, sep) == words[0] + ([sep] + tail);
      SplitGlue(words[0], [sep] + tail, sep);
      assert ([sep] + tail)[1..] == tail;
      assert words[0] + "" == words[0];
      assert words == [words[0]] + words[1..];
    }
  }
}
