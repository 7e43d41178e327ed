/** The string operations the store's queries rely on: SQLite's `lower()`,
    substring matching for `ILIKE '%term%'`, and the BINARY collation order
    used by `ORDER BY name`. */
module Text {

  /** SQLite's built-in `lower()` folds the 26 ASCII capitals and leaves every
      other character (Arabic letters included) as it is. */
  function LowerChar(c: char): char
  {
    if 'A' <= c <= 'Z' then (c as int + 32) as char else c
  }

  function Lower(s: string): (r: string)
    ensures |r| == |s|
    ensures forall i :: 0 <= i < |s| ==> r[i] == LowerChar(s[i])
  {
    seq(|s|, i requires 0 <= i < |s| => LowerChar(s[i]))
  }

  /** Folding twice is folding once, and nothing folded is left in capitals. */
  lemma LowerIdempotent(s: string)
    ensures Lower(Lower(s)) == Lower(s)
    ensures forall i :: 0 <= i < |s| ==> !('A' <= Lower(s)[i] <= 'Z')
  {
  }

  /** `needle` occurs in `hay` starting at position `i`. */
  predicate OccursAt(hay: string, needle: string, i: nat)
  {
    i + |needle| <= |hay| && hay[i..i + |needle|] == needle
  }

  /** Substring test as the store runs it: the needle is a prefix here, or
      occurs further on. */
  predicate Contains(hay: string, needle: string)
    decreases |hay|
  {
    needle <= hay || (hay != [] && Contains(hay[1..], needle))
  }

  /** `Contains` holds exactly when the needle occurs at some position. */
  lemma {:induction false} ContainsIffOccurs(hay: string, needle: string)
    ensures Contains(hay, needle) <==> exists i: nat :: i <= |hay| && OccursAt(hay, needle, i)
    decreases |hay|
  {
    if needle <= hay {
      assert OccursAt(hay, needle, 0);
    } else if hay == [] {
      forall i: nat | i <= |hay| ensures !OccursAt(hay, needle, i) {
        assert OccursAt(hay, needle, i) ==> needle == [] && needle <= hay;
      }
    } else {
      ContainsIffOccurs(hay[1..], needle);
      if Contains(hay[1..], needle) {
        var i: nat :| i <= |hay[1..]| && OccursAt(hay[1..], needle, i);
        TailSlice(hay, i + 1, |needle|);
        assert OccursAt(hay, needle, i + 1);
      } else {
        forall i: nat | i <= |hay| ensures !OccursAt(hay, needle, i) {
          if i == 0 {
            assert OccursAt(hay, needle, i) ==> needle <= hay;
          } else if i + |needle| <= |hay| {
            TailSlice(hay, i, |needle|);
            assert OccursAt(hay, needle, i) == OccursAt(hay[1..], needle, i - 1);
          }
        }
      }
    }
  }

  lemma TailSlice(hay: string, i: nat, n: nat)
    requires 1 <= i && i + n <= |hay|
    ensures hay[1..][i - 1..i - 1 + n] == hay[i..i + n]
  {
    var shifted, direct := hay[1..][i - 1..i - 1 + n], hay[i..i + n];
    forall k | 0 <= k < n ensures shifted[k] == direct[k] {
      assert hay[1..][i - 1 + k] == hay[i + k];
    }
    assert shifted == direct;
  }

  /** Every string contains the empty string and itself. */
  lemma ContainsTrivial(s: string)
    ensures Contains(s, "") && Contains(s, s)
  {
  }

  /** The case-insensitive substring test of `ILIKE '%term%'`: both sides go
      through `lower()` first. */
  predicate ContainsIgnoringCase(hay: string, term: string)
  {
    Contains(Lower(hay), Lower(term))
  }

  /** Some window of the field, folded, equals the folded term. */
  predicate FoldedWindowAt(hay: string, term: string, i: nat)
  {
    i + |term| <= |hay| && Lower(hay[i..i + |term|]) == Lower(term)
  }

  /** The case-insensitive test holds exactly when some window of the field
      equals the term once both are folded: case never decides a match. */
  lemma IgnoresCase(hay: string, term: string)
    ensures ContainsIgnoringCase(hay, term) <==>
            exists i: nat :: i <= |hay| && FoldedWindowAt(hay, term, i)
  {
    ContainsIffOccurs(Lower(hay), Lower(term));
    forall i: nat | i <= |hay|
      ensures OccursAt(Lower(hay), Lower(term), i) == FoldedWindowAt(hay, term, i)
    {
      if i + |term| <= |hay| {
        var folded, window := Lower(hay)[i..i + |term|], Lower(hay[i..i + |term|]);
        forall k | 0 <= k < |term| ensures folded[k] == window[k] {
          assert hay[i..i + |term|][k] == hay[i + k];
        }
        assert folded == window;
      }
    }
  }

  /** The BINARY collation: character by character on code points, a proper
      prefix sorting first. */
  predicate CollateLe(a: string, b: string)
  {
    a == [] || (b != [] && (a[0] < b[0] || (a[0] == b[0] && CollateLe(a[1..], b[1..]))))
  }

  lemma {:induction false} CollateReflexive(a: string)
    ensures CollateLe(a, a)
  {
    if a != [] {
      CollateReflexive(a[1..]);
    }
  }

  lemma {:induction false} CollateTotal(a: string, b: string)
    ensures CollateLe(a, b) || CollateLe(b, a)
  {
    if a != [] && b != [] && a[0] == b[0] {
      CollateTotal(a[1..], b[1..]);
    }
  }

  lemma {:induction false} CollateTransitive(a: string, b: string, c: string)
    requires CollateLe(a, b) && CollateLe(b, c)
    ensures CollateLe(a, c)
  {
    if a != [] && b != [] && c != [] && a[0] == b[0] == c[0] {
      CollateTransitive(a[1..], b[1..], c[1..]);
    }
  }

  /** Two strings each ordered before the other are equal. */
  lemma {:induction false} CollateAntisymmetric(a: string, b: string)
    requires CollateLe(a, b) && CollateLe(b, a)
    ensures a == b
  {
    if a != [] && b != [] {
      CollateAntisymmetric(a[1..], b[1..]);
      assert a == [a[0]] + a[1..] && b == [b[0]] + b[1..];
    }
  }
}
