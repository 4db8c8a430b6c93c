/**
 * The JavaScript string built-ins the core relies on, written as recursive
 * functions over `seq<char>`: `padStart`, `split` with a string separator,
 * `Array.prototype.join`, a global `replace` of a literal pattern and the
 * `match(/.{2}/g)` pairing used when rendering an address.
 */
module Strings {

  /** `n` copies of `c`. */
  function Repeat(c: char, n: nat): (r: string)
    ensures |r| == n
    ensures forall i :: 0 <= i < n ==> r[i] == c
  {
    if n == 0 then [] else [c] + Repeat(c, n - 1)
  }

  /**
   * `s.padStart(n, c)`: `s` unchanged when it already has at least `n`
   * characters, otherwise `s` preceded by enough copies of `c` to reach `n`.
   */
  function PadStart(s: string, n: int, c: char): (r: string)
    ensures |r| == if |s| < n then n else |s|
    ensures r[|r| - |s|..] == s
    ensures forall i :: 0 <= i < |r| - |s| ==> r[i] == c
  {
    if n <= |s| then s else Repeat(c, n - |s|) + s
  }

  /**
   * `s.split(sep)` for a non-empty string separator: the pieces between the
   * non-overlapping occurrences of `sep`, found from left to right. Empty
   * pieces are kept, so there is always at least one.
   */
  function SplitOn(s: string, sep: string): (parts: seq<string>)
    requires sep != []
    ensures |parts| >= 1
    decreases |s|
  {
    if |s| < |sep| then [s]
    else if s[..|sep|] == sep then [[]] + SplitOn(s[|sep|..], sep)
    else
      var rest := SplitOn(s[1..], sep);
      [[s[0]] + rest[0]] + rest[1..]
  }

  /** `parts.join(sep)`. */
  function Join(parts: seq<string>, sep: string): string
  {
    if parts == [] then []
    else if |parts| == 1 then parts[0]
    else parts[0] + sep + Join(parts[1..], sep)
  }

  /**
   * `s.replace(/pat/g, rep)` for a literal pattern: every non-overlapping
   * occurrence, found from left to right, is replaced in a single pass.
   */
  function ReplaceAll(s: string, pat: string, rep: string): string
    requires pat != []
  {
    Join(SplitOn(s, pat), rep)
  }

  /**
   * `s.match(/.{2}/g)`: the consecutive pairs of characters of `s`, an odd
   * last character dropped. (JavaScript answers `null` rather than an empty
   * list when `s` has fewer than two characters; no caller here reaches that.)
   */
  function Pairs(s: string): (r: seq<string>)
    ensures |r| == |s| / 2
    ensures forall i :: 0 <= i < |r| ==> r[i] == s[2 * i..2 * i + 2]
    decreases |s|
  {
    if |s| < 2 then [] else [s[..2]] + Pairs(s[2..])
  }

  /** Joining after an empty first piece puts the separator in front. */
  lemma JoinEmptyFirst(rest: seq<string>, sep: string)
    requires |rest| >= 1
    ensures Join([[]] + rest, sep) == sep + Join(rest, sep)
  {
    assert ([[]] + rest)[1..] == rest;
  }

  /** Joining after a character is prepended to the first piece prepends it to the join. */
  lemma JoinConsFirst(c: char, rest: seq<string>, sep: string)
    requires |rest| >= 1
    ensures Join([[c] + rest[0]] + rest[1..], sep) == [c] + Join(rest, sep)
  {
    var parts := [[c] + rest[0]] + rest[1..];
    if |rest| > 1 {
      assert parts[1..] == rest[1..];
      assert Join(parts, sep) == [c] + (rest[0] + sep + Join(rest[1..], sep));
    }
  }

  /** Joining the pieces of a split with the same separator gives back the text. */
  lemma {:induction false} JoinSplitOn(s: string, sep: string)
    requires sep != []
    ensures Join(SplitOn(s, sep), sep) == s
    decreases |s|
  {
    if |s| >= |sep| {
      if s[..|sep|] == sep {
        JoinSplitOn(s[|sep|..], sep);
        JoinEmptyFirst(SplitOn(s[|sep|..], sep), sep);
        assert s == sep + s[|sep|..];
      } else {
        JoinSplitOn(s[1..], sep);
        JoinConsFirst(s[0], SplitOn(s[1..], sep), sep);
        assert s == [s[0]] + s[1..];
      }
    }
  }

  /** A text without the separator character splits into itself alone. */
  lemma {:induction false} SplitOnAbsent(p: string, c: char)
    requires c !in p
    ensures SplitOn(p, [c]) == [p]
    decreases |p|
  {
    if |p| >= 1 {
      assert p[..1] != [c] by { assert p[..1][0] == p[0]; }
      SplitOnAbsent(p[1..], c);
      assert [p[0]] + p[1..] == p;
    }
  }

  /** Splitting at the first separator character: the piece before it comes first. */
  lemma {:induction false} SplitOnFirst(p: string, c: char, t: string)
    requires c !in p
    ensures SplitOn(p + [c] + t, [c]) == [p] + SplitOn(t, [c])
    decreases |p|
  {
    var s := p + [c] + t;
    if p == [] {
      assert s[..1] == [c];
      assert s[1..] == t;
    } else {
      assert s[..1] != [c] by { assert s[..1][0] == p[0]; }
      assert s[1..] == p[1..] + [c] + t;
      SplitOnFirst(p[1..], c, t);
      var rest := SplitOn(s[1..], [c]);
      assert rest == [p[1..]] + SplitOn(t, [c]);
      assert [p[0]] + p[1..] == p;
    }
  }

  /** Splitting text that was joined with a character none of its pieces holds gives the pieces back. */
  lemma {:induction false} SplitOnJoin(parts: seq<string>, c: char)
    requires parts != []
    requires forall i :: 0 <= i < |parts| ==> c !in parts[i]
    ensures SplitOn(Join(parts, [c]), [c]) == parts
    decreases |parts|
  {
    if |parts| == 1 {
      SplitOnAbsent(parts[0], c);
    } else {
      SplitOnJoin(parts[1..], c);
      SplitOnFirst(parts[0], c, Join(parts[1..], [c]));
      assert [parts[0]] + parts[1..] == parts;
    }
  }

  /** No piece of a split on one character holds that character. */
  lemma {:induction false} SplitOnCharPieces(s: string, c: char)
    ensures forall i :: 0 <= i < |SplitOn(s, [c])| ==> c !in SplitOn(s, [c])[i]
    ensures forall i, x :: 0 <= i < |SplitOn(s, [c])| && x in SplitOn(s, [c])[i] ==> x in s
    decreases |s|
  {
    if |s| >= 1 {
      assert forall x :: x in s[1..] ==> x in s;
      if s[..1] == [c] {
        SplitOnCharPieces(s[1..], c);
      } else {
        assert s[0] != c by { assert s[..1][0] == s[0]; }
        SplitOnCharPieces(s[1..], c);
      }
    }
  }

  /** A character absent from every piece and from the separator is absent from the join. */
  lemma {:induction false} JoinAvoids(parts: seq<string>, sep: string, x: char)
    requires x !in sep
    requires forall i :: 0 <= i < |parts| ==> x !in parts[i]
    ensures x !in Join(parts, sep)
    decreases |parts|
  {
    if |parts| > 1 {
      JoinAvoids(parts[1..], sep, x);
    }
  }

  /** `sep` occurs in `s` starting at position `i`. */
  predicate MatchAt(sep: string, s: string, i: int)
  {
    0 <= i && i + |sep| <= |s| && s[i..i + |sep|] == sep
  }

  /** `sep` occurs somewhere in `s`. */
  predicate Occurs(sep: string, s: string)
  {
    exists i :: 0 <= i <= |s| && MatchAt(sep, s, i)
  }

  /** The first piece of a split is a prefix of the text. */
  lemma {:induction false} SplitOnHead(s: string, sep: string)
    requires sep != []
    ensures SplitOn(s, sep)[0] <= s
    decreases |s|
  {
    if |s| >= |sep| && s[..|sep|] != sep {
      SplitOnHead(s[1..], sep);
      assert s == [s[0]] + s[1..];
    }
  }

  /** No piece of a split holds the separator: the split stops at every occurrence. */
  lemma {:induction false} SplitOnPieces(s: string, sep: string)
    requires sep != []
    ensures forall i :: 0 <= i < |SplitOn(s, sep)| ==> !Occurs(sep, SplitOn(s, sep)[i])
    decreases |s|
  {
    if |s| >= |sep| {
      if s[..|sep|] == sep {
        SplitOnPieces(s[|sep|..], sep);
        var rest := SplitOn(s[|sep|..], sep);
        assert SplitOn(s, sep) == [[]] + rest;
      } else {
        var rest := SplitOn(s[1..], sep);
        SplitOnPieces(s[1..], sep);
        SplitOnHead(s[1..], sep);
        var p := [s[0]] + rest[0];
        assert p <= s by { assert s == [s[0]] + s[1..]; }
        ConsAvoids(s[0], rest[0], s, sep);
        assert SplitOn(s, sep) == [p] + rest[1..];
      }
    }
  }

  /**
   * A piece made of the first character of `s` and a piece without the
   * separator holds no separator, when `s` does not start with one.
   */
  lemma ConsAvoids(c: char, q: string, s: string, sep: string)
    requires [c] + q <= s && !Occurs(sep, q)
    requires |s| >= |sep| ==> s[..|sep|] != sep
    ensures !Occurs(sep, [c] + q)
  {
    var p := [c] + q;
    forall i ensures !MatchAt(sep, p, i) {
      if i == 0 && |sep| <= |p| {
        assert p[i..i + |sep|] == s[..|sep|];
      } else if 0 < i && i + |sep| <= |p| {
        assert p[1..] == q;
        assert p[i..i + |sep|] == q[i - 1..i - 1 + |sep|];
        assert !MatchAt(sep, q, i - 1);
      }
    }
  }

  /** Text in which the separator does not occur splits into itself alone. */
  lemma {:induction false} SplitOnNone(s: string, sep: string)
    requires sep != [] && !Occurs(sep, s)
    ensures SplitOn(s, sep) == [s]
    decreases |s|
  {
    if |s| >= |sep| {
      assert !MatchAt(sep, s, 0);
      assert s[..|sep|] != sep by { assert s[..|sep|] == s[0..0 + |sep|]; }
      forall i ensures !MatchAt(sep, s[1..], i) {
        if 0 <= i && i + |sep| <= |s[1..]| {
          assert s[1..][i..i + |sep|] == s[i + 1..i + 1 + |sep|];
          assert !MatchAt(sep, s, i + 1);
        }
      }
      SplitOnNone(s[1..], sep);
      assert [s[0]] + s[1..] == s;
    }
  }

  /** An occurrence past the first character of `s` is one in `s[1..]`, one place earlier. */
  lemma MatchShift(sep: string, s: string, i: int)
    requires 1 <= i && |s| >= 1
    ensures MatchAt(sep, s, i) <==> MatchAt(sep, s[1..], i - 1)
  {
    if i + |sep| <= |s| {
      assert s[1..][i - 1..i - 1 + |sep|] == s[i..i + |sep|];
    }
  }

  /**
   * The split cuts at the leftmost occurrence: none starts inside the first
   * piece; if there is a second piece, one starts right after the first,
   * and the remaining pieces are the split of the text after it.
   */
  lemma SplitOnLeftmost(s: string, sep: string)
    requires sep != []
    ensures var parts := SplitOn(s, sep);
            && (forall i :: 0 <= i < |parts[0]| ==> !MatchAt(sep, s, i))
            && (|parts| == 1 ==> parts[0] == s)
            && (|parts| > 1 ==> MatchAt(sep, s, |parts[0]|)
                                && parts[1..] == SplitOn(s[|parts[0]| + |sep|..], sep))
  {
    SplitOnClear(s, sep);
    SplitOnCut(s, sep);
    JoinSplitOn(s, sep);
  }

  /** No occurrence of the separator starts inside the first piece. */
  lemma {:induction false} SplitOnClear(s: string, sep: string)
    requires sep != []
    ensures forall i :: 0 <= i < |SplitOn(s, sep)[0]| ==> !MatchAt(sep, s, i)
    decreases |s|
  {
    if |s| >= |sep| && s[..|sep|] != sep {
      var rest := SplitOn(s[1..], sep);
      SplitOnClear(s[1..], sep);
      assert SplitOn(s, sep)[0] == [s[0]] + rest[0];
      assert !MatchAt(sep, s, 0) by { assert s[0..0 + |sep|] == s[..|sep|]; }
      NoMatchCons(s, sep, |rest[0]|);
    }
  }

  /** Past the first piece comes an occurrence, and the other pieces split the text after it. */
  lemma {:induction false} SplitOnCut(s: string, sep: string)
    requires sep != []
    ensures var parts := SplitOn(s, sep);
            |parts| > 1 ==> MatchAt(sep, s, |parts[0]|)
                            && parts[1..] == SplitOn(s[|parts[0]| + |sep|..], sep)
    decreases |s|
  {
    var parts := SplitOn(s, sep);
    if |s| < |sep| {
      assert |parts| == 1;
    } else if s[..|sep|] == sep {
      assert MatchAt(sep, s, 0);
      assert |parts[0]| == 0;
      assert parts[1..] == SplitOn(s[|sep|..], sep);
      assert s[|parts[0]| + |sep|..] == s[|sep|..];
    } else {
      var rest := SplitOn(s[1..], sep);
      SplitOnCut(s[1..], sep);
      assert parts == [[s[0]] + rest[0]] + rest[1..];
      if |rest| > 1 {
        var k := |rest[0]|;
        assert |parts[0]| == k + 1;
        assert MatchAt(sep, s, k + 1) by { MatchShift(sep, s, k + 1); }
        assert parts[1..] == rest[1..];
        assert s[k + 1 + |sep|..] == s[1..][k + |sep|..];
        assert rest[1..] == SplitOn(s[k + 1 + |sep|..], sep);
      }
    }
  }

  /**
   * When `s` does not start with the separator, a stretch of `s[1..]`
   * where none starts extends by one place to the front in `s`.
   */
  lemma NoMatchCons(s: string, sep: string, n: nat)
    requires |s| >= 1 && !MatchAt(sep, s, 0)
    requires forall i :: 0 <= i < n ==> !MatchAt(sep, s[1..], i)
    ensures forall i :: 0 <= i < n + 1 ==> !MatchAt(sep, s, i)
  {
    forall i | 1 <= i < n + 1 ensures !MatchAt(sep, s, i) {
      MatchShift(sep, s, i);
    }
  }

  /** A global replace changes nothing in text where the pattern does not occur. */
  lemma ReplaceAllAbsent(s: string, pat: string, rep: string)
    requires pat != [] && !Occurs(pat, s)
    ensures ReplaceAll(s, pat, rep) == s
  {
    SplitOnNone(s, pat);
  }
}
