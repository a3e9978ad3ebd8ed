/**
 * The parts of Rust's `str` API that the vault relies on, with the
 * semantics of the standard library: `starts_with`, `ends_with`,
 * `split(char)`, `trim_start_matches` / `trim_end_matches` (which strip
 * a pattern repeatedly, not once), and a `join` used to state properties.
 */
module Strings {

  predicate StartsWith(s: string, prefix: string) {
    |prefix| <= |s| && s[..|prefix|] == prefix
  }

  predicate EndsWith(s: string, suffix: string) {
    |suffix| <= |s| && s[|s| - |suffix|..] == suffix
  }

  /** `s.trim_start_matches(p)`: every leading copy of `p` is removed; an empty `p` removes nothing. */
  function TrimStartMatches(s: string, p: string): string
    decreases |s|
  {
    if |p| > 0 && StartsWith(s, p) then TrimStartMatches(s[|p|..], p) else s
  }

  /** `k` copies of `p`, one after the other. */
  function Repeat(p: string, k: nat): (r: string)
    ensures |r| == k * |p|
    decreases k
  {
    if k == 0 then "" else p + Repeat(p, k - 1)
  }

  /** A copy of `p` can be added at either end of a run of copies. */
  lemma {:induction false} RepeatSnoc(p: string, k: nat)
    ensures Repeat(p, k) + p == Repeat(p, k + 1)
    decreases k
  {
    if k > 0 {
      RepeatSnoc(p, k - 1);
      calc {
        Repeat(p, k) + p;
        (p + Repeat(p, k - 1)) + p;
        p + (Repeat(p, k - 1) + p);
        p + Repeat(p, k);
      }
    }
  }

  /**
   * What is left is a suffix that no longer starts with `p`, and what was
   * removed is whole copies of `p`: at least one when there is one, none
   * when there is none.
   */
  lemma TrimStartMatchesSpec(s: string, p: string)
    ensures var r := TrimStartMatches(s, p);
      && EndsWith(s, r)
      && (exists k: nat :: s == Repeat(p, k) + r)
      && (|p| > 0 ==> !StartsWith(r, p))
      && ((|p| == 0 || !StartsWith(s, p)) ==> r == s)
      && (|p| > 0 && StartsWith(s, p) ==> |r| <= |s| - |p|)
  {
    TrimStartMatchesSuffix(s, p);
    var k := TrimStartMatchesCopies(s, p);
    if |p| > 0 {
      TrimStartMatchesNoLead(s, p);
    }
    if |p| > 0 && StartsWith(s, p) {
      TrimStartMatchesSuffix(s[|p|..], p);
    }
  }

  lemma {:induction false} TrimStartMatchesSuffix(s: string, p: string)
    ensures EndsWith(s, TrimStartMatches(s, p))
    decreases |s|
  {
    if |p| > 0 && StartsWith(s, p) {
      var t := s[|p|..];
      TrimStartMatchesSuffix(t, p);
      assert EndsWith(s, t) by { assert s[|s| - |t|..] == t; }
      EndsWithTrans(s, t, TrimStartMatches(t, p));
    }
  }

  /** The removed prefix is `k` copies of `p`. */
  lemma {:induction false} TrimStartMatchesCopies(s: string, p: string) returns (k: nat)
    ensures s == Repeat(p, k) + TrimStartMatches(s, p)
    decreases |s|
  {
    if |p| > 0 && StartsWith(s, p) {
      var t := s[|p|..];
      var j := TrimStartMatchesCopies(t, p);
      k := j + 1;
      calc {
        s;
        { assert s == p + t; }
        p + t;
        p + (Repeat(p, j) + TrimStartMatches(t, p));
        Repeat(p, k) + TrimStartMatches(s, p);
      }
    } else {
      k := 0;
    }
  }

  lemma {:induction false} TrimStartMatchesNoLead(s: string, p: string)
    requires |p| > 0
    ensures !StartsWith(TrimStartMatches(s, p), p)
    decreases |s|
  {
    if StartsWith(s, p) {
      TrimStartMatchesNoLead(s[|p|..], p);
    }
  }

  /** `s.trim_start_matches(c)` for a character pattern. */
  function TrimStartChar(s: string, c: char): string
    decreases |s|
  {
    if |s| > 0 && s[0] == c then TrimStartChar(s[1..], c) else s
  }

  /** What is left is a suffix that does not start with `c`, and everything removed was `c`. */
  lemma {:induction false} TrimStartCharSpec(s: string, c: char)
    ensures var r := TrimStartChar(s, c);
      && EndsWith(s, r)
      && (r == [] || r[0] != c)
      && (forall i :: 0 <= i < |s| - |r| ==> s[i] == c)
    decreases |s|
  {
    if |s| > 0 && s[0] == c {
      var t := s[1..];
      var r := TrimStartChar(t, c);
      TrimStartCharSpec(t, c);
      assert EndsWith(s, t) by { assert s[|s| - |t|..] == t; }
      EndsWithTrans(s, t, r);
      forall i | 1 <= i < |s| - |r|
        ensures s[i] == c
      {
        assert s[i] == t[i - 1];
      }
    }
  }

  lemma {:induction false} TrimStartCharShorter(s: string, c: char)
    ensures |TrimStartChar(s, c)| <= |s|
    decreases |s|
  {
    if |s| > 0 && s[0] == c {
      TrimStartCharShorter(s[1..], c);
    }
  }

  /** `s.trim_end_matches(p)`: every trailing copy of `p` is removed; an empty `p` removes nothing. */
  function TrimEndMatches(s: string, p: string): string
    decreases |s|
  {
    if |p| > 0 && EndsWith(s, p) then TrimEndMatches(s[..|s| - |p|], p) else s
  }

  /**
   * What is left is a prefix that no longer ends with `p`, and what was
   * removed is whole copies of `p`: at least one when there is one, none
   * when there is none.
   */
  lemma TrimEndMatchesSpec(s: string, p: string)
    ensures var r := TrimEndMatches(s, p);
      && StartsWith(s, r)
      && (exists k: nat :: s == r + Repeat(p, k))
      && (|p| > 0 ==> !EndsWith(r, p))
      && ((|p| == 0 || !EndsWith(s, p)) ==> r == s)
      && (|p| > 0 && EndsWith(s, p) ==> |r| <= |s| - |p|)
  {
    TrimEndMatchesPrefix(s, p);
    var k := TrimEndMatchesCopies(s, p);
    if |p| > 0 {
      TrimEndMatchesNoTrail(s, p);
    }
    if |p| > 0 && EndsWith(s, p) {
      TrimEndMatchesPrefix(s[..|s| - |p|], p);
    }
  }

  lemma {:induction false} TrimEndMatchesPrefix(s: string, p: string)
    ensures StartsWith(s, TrimEndMatches(s, p))
    decreases |s|
  {
    if |p| > 0 && EndsWith(s, p) {
      var t := s[..|s| - |p|];
      TrimEndMatchesPrefix(t, p);
      assert StartsWith(s, t) by { assert s[..|t|] == t; }
      StartsWithTrans(s, t, TrimEndMatches(t, p));
    }
  }

  /** The removed suffix is `k` copies of `p`. */
  lemma {:induction false} TrimEndMatchesCopies(s: string, p: string) returns (k: nat)
    ensures s == TrimEndMatches(s, p) + Repeat(p, k)
    decreases |s|
  {
    if |p| > 0 && EndsWith(s, p) {
      var t := s[..|s| - |p|];
      var j := TrimEndMatchesCopies(t, p);
      k := j + 1;
      RepeatSnoc(p, j);
      calc {
        s;
        { assert s == t + p; }
        t + p;
        (TrimEndMatches(t, p) + Repeat(p, j)) + p;
        TrimEndMatches(t, p) + (Repeat(p, j) + p);
        TrimEndMatches(s, p) + Repeat(p, k);
      }
    } else {
      k := 0;
    }
  }

  lemma {:induction false} TrimEndMatchesNoTrail(s: string, p: string)
    requires |p| > 0
    ensures !EndsWith(TrimEndMatches(s, p), p)
    decreases |s|
  {
    if EndsWith(s, p) {
      TrimEndMatchesNoTrail(s[..|s| - |p|], p);
    }
  }

  /** `parts` glued together with `sep` between consecutive parts. */
  function Join(parts: seq<string>, sep: string): string
    decreases |parts|
  {
    if |parts| == 0 then ""
    else if |parts| == 1 then parts[0]
    else parts[0] + sep + Join(parts[1..], sep)
  }

  /** `s.split(sep).collect()`: the fields between separators, empty ones included. */
  function Split(s: string, sep: char): (parts: seq<string>)
    ensures |parts| >= 1
    decreases |s|
  {
    if |s| == 0 then [""]
    else
      var rest := Split(s[1..], sep);
      if s[0] == sep then [""] + rest
      else [[s[0]] + rest[0]] + rest[1..]
  }

  /** No field contains the separator, and joining the fields with it restores `s`. */
  lemma SplitSpec(s: string, sep: char)
    ensures forall k :: 0 <= k < |Split(s, sep)| ==> sep !in Split(s, sep)[k]
    ensures Join(Split(s, sep), [sep]) == s
  {
    SplitFieldsLackSeparator(s, sep);
    SplitRejoins(s, sep);
  }

  lemma {:induction false} SplitFieldsLackSeparator(s: string, sep: char)
    ensures forall k :: 0 <= k < |Split(s, sep)| ==> sep !in Split(s, sep)[k]
    decreases |s|
  {
    if |s| > 0 {
      var rest := Split(s[1..], sep);
      SplitFieldsLackSeparator(s[1..], sep);
      var parts := Split(s, sep);
      if s[0] == sep {
        assert parts == [""] + rest;
        assert forall k :: 1 <= k < |parts| ==> parts[k] == rest[k - 1];
      } else {
        assert parts == [[s[0]] + rest[0]] + rest[1..];
        assert forall k :: 1 <= k < |parts| ==> parts[k] == rest[k];
      }
    }
  }

  lemma {:induction false} SplitRejoins(s: string, sep: char)
    ensures Join(Split(s, sep), [sep]) == s
    decreases |s|
  {
    if |s| > 0 {
      var rest := Split(s[1..], sep);
      SplitRejoins(s[1..], sep);
      if s[0] == sep {
        assert [sep] + Join(rest, [sep]) == s;
      } else {
        var parts := [[s[0]] + rest[0]] + rest[1..];
        JoinConsFirst(rest, [sep], s[0]);
        assert Join(parts, [sep]) == [s[0]] + Join(rest, [sep]);
      }
    }
  }

  /** Putting a character in front of the first part puts it in front of the joined string. */
  lemma JoinConsFirst(parts: seq<string>, sep: string, c: char)
    requires |parts| >= 1
    ensures Join([[c] + parts[0]] + parts[1..], sep) == [c] + Join(parts, sep)
  {
    var moved := [[c] + parts[0]] + parts[1..];
    assert moved[0] == [c] + parts[0];
    assert moved[1..] == parts[1..];
    if |parts| > 1 {
      assert Join(moved, sep) == ([c] + parts[0]) + sep + Join(parts[1..], sep);
      assert Join(parts, sep) == parts[0] + sep + Join(parts[1..], sep);
    }
  }

  lemma {:induction false} JoinSnoc(parts: seq<string>, sep: string, last: string)
    ensures Join(parts + [last], sep) == if |parts| == 0 then last else Join(parts, sep) + sep + last
    decreases |parts|
  {
    if |parts| > 1 {
      assert (parts + [last])[1..] == parts[1..] + [last];
      JoinSnoc(parts[1..], sep, last);
    } else if |parts| == 1 {
      assert (parts + [last])[1..] == [last];
    }
  }

  /** Splitting undoes joining when no part contains the separator. */
  lemma {:induction false} SplitJoin(parts: seq<string>, sep: char)
    requires |parts| >= 1
    requires forall k :: 0 <= k < |parts| ==> sep !in parts[k]
    ensures Split(Join(parts, [sep]), sep) == parts
    decreases |parts|, |parts[0]|
  {
    var s := Join(parts, [sep]);
    if |parts[0]| == 0 {
      if |parts| > 1 {
        assert s == [sep] + Join(parts[1..], [sep]);
        assert s[1..] == Join(parts[1..], [sep]);
        SplitJoin(parts[1..], sep);
        assert parts == [""] + parts[1..];
      }
    } else {
      var tail := [parts[0][1..]] + parts[1..];
      assert tail[1..] == parts[1..];
      assert parts[0] == [parts[0][0]] + tail[0];
      JoinConsFirst(tail, [sep], parts[0][0]);
      assert [[parts[0][0]] + tail[0]] + tail[1..] == parts;
      assert parts[0][0] in parts[0];
      SplitJoin(tail, sep);
      assert s == [parts[0][0]] + Join(tail, [sep]);
      assert s[1..] == Join(tail, [sep]);
    }
  }

  lemma EndsWithTrans(a: string, b: string, c: string)
    requires EndsWith(a, b) && EndsWith(b, c)
    ensures EndsWith(a, c)
  {
    assert a[|a| - |c|..] == b[|b| - |c|..];
  }

  lemma StartsWithTrans(a: string, b: string, c: string)
    requires StartsWith(a, b) && StartsWith(b, c)
    ensures StartsWith(a, c)
  {
    assert a[..|c|] == b[..|c|];
  }

  /** `piece` occurs in `s` at offset `i`. */
  predicate OccursAt(s: string, i: int, piece: string) {
    0 <= i <= |s| && StartsWith(s[i..], piece)
  }

  /** The index of the first `c` in `s`, or `|s|` when there is none. */
  function IndexOf(s: string, c: char): (i: nat)
    ensures i <= |s|
    ensures i < |s| ==> s[i] == c
    ensures forall j :: 0 <= j < i ==> s[j] != c
    decreases |s|
  {
    if |s| == 0 || s[0] == c then 0 else 1 + IndexOf(s[1..], c)
  }

  lemma {:induction false} IndexOfAfter(prefix: string, c: char, rest: string)
    requires c !in prefix
    ensures IndexOf(prefix + [c] + rest, c) == |prefix|
    decreases |prefix|
  {
    if |prefix| > 0 {
      assert (prefix + [c] + rest)[1..] == prefix[1..] + [c] + rest;
      IndexOfAfter(prefix[1..], c, rest);
    }
  }
}
