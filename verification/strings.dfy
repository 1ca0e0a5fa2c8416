/**
 The few `java.lang.String` and stream operations the program relies on:
 `Collectors.joining`, `contains`, `split` on a one-character pattern and
 `isBlank`.
 */
module Strings {
  import opened Results

  /** `parts` with `sep` between neighbours, as `Collectors.joining(sep)` builds it. */
  function Join(parts: seq<string>, sep: string): (r: string)
    ensures |parts| == 0 ==> r == ""
    ensures |parts| > 0 ==> parts[0] <= r
    decreases |parts|
  {
    if |parts| == 0 then ""
    else if |parts| == 1 then parts[0]
    else parts[0] + sep + Join(parts[1..], sep)
  }

  /** The joined string ends with the last part. */
  lemma {:induction false} JoinEndsWithLast(parts: seq<string>, sep: string)
    requires |parts| > 0
    ensures var r := Join(parts, sep);
            var last := parts[|parts| - 1];
            |last| <= |r| && r[|r| - |last|..] == last
    decreases |parts|
  {
    if |parts| > 1 {
      var last := parts[|parts| - 1];
      var head := parts[0] + sep;
      var rest := Join(parts[1..], sep);
      JoinEndsWithLast(parts[1..], sep);
      assert parts[1..][|parts| - 2] == last;
      assert Join(parts, sep) == head + rest;
      assert (head + rest)[|head + rest| - |last|..] == rest[|rest| - |last|..];
    }
  }

  lemma JoinTwo(a: string, b: string, sep: string)
    ensures Join([a, b], sep) == a + sep + b
  {
    assert [a, b][1..] == [b];
  }

  /** Prepending to the first part prepends to the joined string. */
  lemma JoinConsHead(a: string, parts: seq<string>, sep: string)
    requires |parts| >= 1
    ensures Join([a + parts[0]] + parts[1..], sep) == a + Join(parts, sep)
  {
    var q := [a + parts[0]] + parts[1..];
    assert q[1..] == parts[1..];
  }

  // ---------------------------------------------------------------- contains

  /** `s.contains(sub)`: `sub` occurs somewhere in `s`. */
  predicate Contains(s: string, sub: string)
    ensures |sub| == 0 ==> Contains(s, sub)
    ensures Contains(s, sub) ==> |sub| <= |s|
    decreases |s|
  {
    sub <= s || (|s| > 0 && Contains(s[1..], sub))
  }

  /** `sub` occurs in `s` starting at index `i`. */
  ghost predicate OccursAt(s: string, sub: string, i: nat)
  {
    i + |sub| <= |s| && s[i..i + |sub|] == sub
  }

  /** `Contains` agrees with the positional definition of an occurrence. */
  lemma ContainsIffOccurs(s: string, sub: string)
    ensures Contains(s, sub) <==> exists i: nat :: OccursAt(s, sub, i)
  {
    if Contains(s, sub) {
      var i := ContainsGivesOccurrence(s, sub);
    }
    if i: nat :| OccursAt(s, sub, i) {
      OccurrenceGivesContains(s, sub, i);
    }
  }

  lemma {:induction false} ContainsGivesOccurrence(s: string, sub: string) returns (i: nat)
    requires Contains(s, sub)
    ensures OccursAt(s, sub, i)
    decreases |s|
  {
    if sub <= s {
      i := 0;
    } else {
      var k := ContainsGivesOccurrence(s[1..], sub);
      assert s[1..][k..k + |sub|] == s[k + 1..k + 1 + |sub|];
      i := k + 1;
    }
  }

  lemma {:induction false} OccurrenceGivesContains(s: string, sub: string, i: nat)
    requires OccursAt(s, sub, i)
    ensures Contains(s, sub)
    decreases i
  {
    if i == 0 {
      assert sub == s[..|sub|];
    } else {
      assert s[1..][i - 1..i - 1 + |sub|] == s[i..i + |sub|];
      OccurrenceGivesContains(s[1..], sub, i - 1);
    }
  }

  lemma EmptyContainsOnlyEmpty(sub: string)
    requires |sub| > 0
    ensures !Contains("", sub)
  {
  }

  // ---------------------------------------------------------------- split

  /**
   Every field of `s` between occurrences of `c`, empty ones included; the
   list always has one more element than `s` has separators.
   */
  function Fields(s: string, c: char): (r: seq<string>)
    ensures |r| >= 1
    ensures forall i | 0 <= i < |r| :: c !in r[i]
    decreases |s|
  {
    if |s| == 0 then [""]
    else
      var rest := Fields(s[1..], c);
      if s[0] == c then [""] + rest
      else [[s[0]] + rest[0]] + rest[1..]
  }

  /** Joining the fields with the separator gives back the string. */
  lemma {:induction false} JoinFields(s: string, c: char)
    ensures Join(Fields(s, c), [c]) == s
    decreases |s|
  {
    if |s| > 0 {
      var rest := Fields(s[1..], c);
      JoinFields(s[1..], c);
      if s[0] == c {
        assert ([""] + rest)[1..] == rest;
        assert s == [c] + s[1..];
      } else {
        JoinConsHead([s[0]], rest, [c]);
        assert s == [s[0]] + s[1..];
      }
    }
  }

  lemma {:induction false} FieldsOfPlain(s: string, c: char)
    requires c !in s
    ensures Fields(s, c) == [s]
    decreases |s|
  {
    if |s| > 0 {
      FieldsOfPlain(s[1..], c);
      assert [s[0]] + s[1..] == s;
    }
  }

  lemma {:induction false} FieldsOfSeparated(p: string, c: char, t: string)
    requires c !in p
    ensures Fields(p + [c] + t, c) == [p] + Fields(t, c)
    decreases |p|
  {
    var s := p + [c] + t;
    if |p| == 0 {
      assert s == [c] + t;
      assert s[1..] == t;
    } else {
      assert s[0] == p[0];
      assert s[1..] == p[1..] + [c] + t;
      FieldsOfSeparated(p[1..], c, t);
      assert [p[0]] + p[1..] == p;
    }
  }

  /** Splitting a join of separator-free parts gives back the parts. */
  lemma {:induction false} FieldsOfJoin(parts: seq<string>, c: char)
    requires |parts| >= 1
    requires forall i | 0 <= i < |parts| :: c !in parts[i]
    ensures Fields(Join(parts, [c]), c) == parts
    decreases |parts|
  {
    if |parts| == 1 {
      FieldsOfPlain(parts[0], c);
    } else {
      FieldsOfJoin(parts[1..], c);
      FieldsOfSeparated(parts[0], c, Join(parts[1..], [c]));
      assert [parts[0]] + parts[1..] == parts;
    }
  }

  /** The list with its trailing empty strings removed. */
  function DropTrailingEmpty(xs: seq<string>): (r: seq<string>)
    ensures r <= xs
    ensures forall i | |r| <= i < |xs| :: xs[i] == ""
    ensures |r| > 0 ==> r[|r| - 1] != ""
    decreases |xs|
  {
    if |xs| == 0 then []
    else if xs[|xs| - 1] == "" then DropTrailingEmpty(xs[..|xs| - 1])
    else xs
  }

  /**
   `s.split(String.valueOf(c))`: when `c` occurs, the fields without the
   trailing empty ones; otherwise `s` alone.
   */
  function Split(s: string, c: char): (r: seq<string>)
    ensures c !in s ==> r == [s]
    ensures forall i | 0 <= i < |r| :: c !in r[i]
    ensures c in s ==> && r <= Fields(s, c)
                       && (forall i | |r| <= i < |Fields(s, c)| :: Fields(s, c)[i] == "")
                       && (|r| > 0 ==> r[|r| - 1] != "")
  {
    if c in s then DropTrailingEmpty(Fields(s, c)) else [s]
  }

  // ---------------------------------------------------------------- search

  /** The first element of `xs` that contains `marker`, if any. */
  function FirstContaining(xs: seq<string>, marker: string): (r: Option<string>)
    ensures r.Some? ==> Contains(r.value, marker)
    ensures r.Some? ==> exists i :: 0 <= i < |xs| && xs[i] == r.value
                          && forall j | 0 <= j < i :: !Contains(xs[j], marker)
    ensures r.None? <==> forall i | 0 <= i < |xs| :: !Contains(xs[i], marker)
    decreases |xs|
  {
    if |xs| == 0 then None
    else if Contains(xs[0], marker) then Some(xs[0])
    else
      var r := FirstContaining(xs[1..], marker);
      assert forall i | 1 <= i < |xs| :: xs[i] == xs[1..][i - 1];
      r
  }

  /** Elements past a prefix that do not contain the marker do not change the first match. */
  lemma {:induction false} FirstContainingPrefix(r: seq<string>, xs: seq<string>, marker: string)
    requires r <= xs
    requires forall i | |r| <= i < |xs| :: !Contains(xs[i], marker)
    ensures FirstContaining(r, marker) == FirstContaining(xs, marker)
    decreases |xs|
  {
    if |r| > 0 && !Contains(r[0], marker) {
      assert r[1..] <= xs[1..];
      FirstContainingPrefix(r[1..], xs[1..], marker);
    } else if |r| == 0 && |xs| > 0 {
      assert !Contains(xs[0], marker);
      FirstContainingPrefix(r, xs[1..], marker);
    }
  }

  /**
   Dropping trailing empty strings, as `split` does, never changes which
   field is found first when looking for a non-empty marker.
   */
  lemma SplitFindsSameAsFields(s: string, c: char, marker: string)
    requires |marker| > 0
    ensures FirstContaining(Split(s, c), marker) == FirstContaining(Fields(s, c), marker)
  {
    if c in s {
      var xs := Fields(s, c);
      var r := DropTrailingEmpty(xs);
      forall i | |r| <= i < |xs|
        ensures !Contains(xs[i], marker)
      {
        EmptyContainsOnlyEmpty(marker);
      }
      FirstContainingPrefix(r, xs, marker);
    } else {
      FieldsOfPlain(s, c);
    }
  }

  // ---------------------------------------------------------------- blank

  /** `Character.isWhitespace`. */
  predicate IsWhitespace(ch: char)
  {
    var n := ch as int;
    || n == 0x20
    || (0x09 <= n <= 0x0D)
    || (0x1C <= n <= 0x1F)
    || n == 0x1680
    || (0x2000 <= n <= 0x2006)
    || (0x2008 <= n <= 0x200A)
    || n == 0x2028
    || n == 0x2029
    || n == 0x205F
    || n == 0x3000
  }

  /** `String.isBlank`: empty or whitespace only. */
  predicate IsBlank(s: string)
    ensures IsBlank(s) <==> forall i | 0 <= i < |s| :: IsWhitespace(s[i])
    decreases |s|
  {
    |s| == 0 || (IsWhitespace(s[0]) && IsBlank(s[1..]))
  }
}
