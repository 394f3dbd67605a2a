/** Splitting strings at a separator, as str.split and str.partition do. */
module Segments {
  import opened Common

  function Split(s: string, sep: char): (parts: seq<string>)
    ensures |parts| >= 1 && (s == "" ==> parts == [""])
    ensures forall part | part in parts :: sep !in part
  {
    if s == "" then [""]
    else
      var rest := Split(s[1..], sep);
      assert rest[0] in rest && forall part | part in rest[1..] :: part in rest;
      if s[0] == sep then [""] + rest else [[s[0]] + rest[0]] + rest[1..]
  }

  /** What comes before the first separator, and what comes after it if there is one. */
  function Partition(s: string, sep: char): (string, Option<string>) {
    if s == "" then ("", None)
    else if s[0] == sep then ("", Some(s[1..]))
    else var (head, tail) := Partition(s[1..], sep); ([s[0]] + head, tail)
  }

  predicate EndsWith(s: string, suffix: string) { |suffix| <= |s| && s[|s| - |suffix|..] == suffix }

  lemma {:induction false} SplitAtSeparator(a: string, b: string, sep: char)
    ensures Split(a + [sep] + b, sep) == Split(a, sep) + Split(b, sep)
  {
    if a == "" {
      assert (a + [sep] + b)[1..] == b;
    } else {
      assert (a + [sep] + b)[1..] == a[1..] + [sep] + b;
      SplitAtSeparator(a[1..], b, sep);
    }
  }

  lemma {:induction false} SplitWithout(s: string, sep: char)
    requires sep !in s
    ensures Split(s, sep) == [s]
  {
    if s != "" {
      SplitWithout(s[1..], sep);
      assert s == [s[0]] + s[1..];
    }
  }

  /** A separator in a string separates. */
  lemma {:induction false} PartitionSplits(s: string, sep: char)
    ensures var (head, tail) := Partition(s, sep);
      && sep !in head
      && (tail.None? ==> s == head && Split(s, sep) == [s])
      && (tail.Some? ==> s == head + [sep] + tail.value && Split(s, sep) == [head] + Split(tail.value, sep))
  {
    if s != "" {
      PartitionSplits(s[1..], sep);
      if s[0] != sep {
        var (head, tail) := Partition(s[1..], sep);
        if tail.Some? { assert s == [s[0]] + (head + [sep] + tail.value); }
      }
    }
  }

  lemma PartitionOf(head: string, tail: string, sep: char)
    requires sep !in head
    ensures Partition(head + [sep] + tail, sep) == (head, Some(tail))
  {
    if head == "" {
      assert (head + [sep] + tail)[1..] == tail;
    } else {
      assert (head + [sep] + tail)[1..] == head[1..] + [sep] + tail;
      PartitionOf(head[1..], tail, sep);
      assert head == [head[0]] + head[1..];
    }
  }

  /** Everything before the last separator. */
  function Parent(s: string, sep: char): (parent: string)
    requires |Split(s, sep)| >= 2
    decreases |s|
  {
    if |Split(s[1..], sep)| >= 2 then [s[0]] + Parent(s[1..], sep) else ""
  }

  /** The string is its parent, the separator, and its last segment. */
  lemma {:induction false} ParentAndLast(s: string, sep: char)
    requires |Split(s, sep)| >= 2
    ensures var parts := Split(s, sep);
      && s == Parent(s, sep) + [sep] + parts[|parts| - 1]
      && Split(Parent(s, sep), sep) == parts[..|parts| - 1]
    decreases |s|
  {
    hide Split;
    if |Split(s[1..], sep)| >= 2 {
      ParentAndLast(s[1..], sep);
      LongerByOne(s, sep, Parent(s[1..], sep));
    } else {
      LeadingSeparator(s, sep);
    }
  }

  lemma LongerByOne(s: string, sep: char, parent: string)
    requires s != "" && |Split(s[1..], sep)| >= 2
    requires var rest := Split(s[1..], sep);
      s[1..] == parent + [sep] + rest[|rest| - 1] && Split(parent, sep) == rest[..|rest| - 1]
    ensures var parts := Split(s, sep);
      s == [s[0]] + parent + [sep] + parts[|parts| - 1] && Split([s[0]] + parent, sep) == parts[..|parts| - 1]
  {
    hide Split;
    LastStays(s, sep);
    ParentSegments(s, sep, parent);
    assert s == [s[0]] + s[1..];
    var last := Split(s[1..], sep)[|Split(s[1..], sep)| - 1];
    assert [s[0]] + (parent + [sep] + last) == [s[0]] + parent + [sep] + last;
  }

  lemma LastStays(s: string, sep: char)
    requires s != "" && |Split(s[1..], sep)| >= 2
    ensures var parts, rest := Split(s, sep), Split(s[1..], sep); |parts| >= 2 && parts[|parts| - 1] == rest[|rest| - 1]
  {
  }

  lemma LeadingSeparator(s: string, sep: char)
    requires |Split(s, sep)| >= 2 && |Split(s[1..], sep)| == 1
    ensures var parts := Split(s, sep); s == "" + [sep] + parts[|parts| - 1] && Split("", sep) == parts[..|parts| - 1]
  {
    OnlySegment(s[1..], sep);
    assert s == [s[0]] + s[1..];
  }

  lemma ParentSegments(s: string, sep: char, parent: string)
    requires s != "" && |Split(s[1..], sep)| >= 2
    requires Split(parent, sep) == Split(s[1..], sep)[..|Split(s[1..], sep)| - 1]
    ensures Split([s[0]] + parent, sep) == Split(s, sep)[..|Split(s, sep)| - 1]
  {
    assert ([s[0]] + parent)[1..] == parent;
  }

  lemma {:induction false} OnlySegment(s: string, sep: char)
    requires |Split(s, sep)| == 1
    ensures Split(s, sep) == [s]
  {
    if s != "" {
      OnlySegment(s[1..], sep);
      assert s == [s[0]] + s[1..];
    }
  }

  lemma {:induction false} SplitInjective(a: string, b: string, sep: char)
    requires Split(a, sep) == Split(b, sep)
    ensures a == b
    decreases |a|
  {
    if |Split(a, sep)| >= 2 {
      ParentAndLast(a, sep);
      ParentAndLast(b, sep);
      SplitInjective(Parent(a, sep), Parent(b, sep), sep);
    } else {
      OnlySegment(a, sep);
      OnlySegment(b, sep);
    }
  }

  /** A string prefix that ends at a separator is a proper prefix of the segments, and conversely. */
  lemma PrefixIsSegmentwise(p: string, r: string, sep: char)
    ensures p + [sep] <= r <==> Split(p, sep) < Split(r, sep)
  {
    if p + [sep] <= r {
      var tail := r[|p| + 1..];
      assert r == p + [sep] + tail;
      SplitAtSeparator(p, tail, sep);
    } else if Split(p, sep) < Split(r, sep) {
      SegmentPrefix(p, r, sep);
    }
  }

  lemma {:induction false} SegmentPrefix(p: string, r: string, sep: char)
    requires Split(p, sep) < Split(r, sep)
    ensures p + [sep] <= r
    decreases |r|
  {
    ParentAndLast(r, sep);
    var parent := Parent(r, sep);
    if Split(p, sep) == Split(parent, sep) {
      SplitInjective(p, parent, sep);
    } else {
      SegmentPrefix(p, parent, sep);
    }
  }
}
