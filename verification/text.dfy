/**
 Character classes and string helpers shared by the suppression grammar.

 Strings are `seq<char>`. The character classes are the ASCII part of the .NET
 regular-expression classes they stand for: `\s` is restricted to the six ASCII
 white-space characters and `\d` to `0`..`9`.
 */
module Text {

  /** ASCII part of `\s`: space, tab, line feed, vertical tab, form feed, carriage return. */
  predicate IsSpace(c: char) {
    c == ' ' || c == '\t' || c == '\n' || c as int == 11 || c as int == 12 || c == '\r'
  }

  /** ASCII part of `\d`. */
  predicate IsDigit(c: char) {
    '0' <= c <= '9'
  }

  /** The character class `[a-zA-Z\d,:]` of the suppressed-ID list. */
  predicate IsIdChar(c: char) {
    ('a' <= c <= 'z') || ('A' <= c <= 'Z') || IsDigit(c) || c == ',' || c == ':'
  }

  /** The character classes scanned for: the two of the grammar, and everything but a separator. */
  datatype CharClass = Space | IdChar | Except(sep: char)

  predicate InClass(c: char, cls: CharClass) {
    match cls
    case Space => IsSpace(c)
    case IdChar => IsIdChar(c)
    case Except(sep) => c != sep
  }

  /** `t` occurs in `s` starting at position `k`. */
  predicate HasAt(s: string, k: int, t: string) {
    0 <= k && k + |t| <= |s| && s[k..k + |t|] == t
  }

  /** `t` occurs at `k` when its characters do, one by one. */
  lemma HasAtFromChars(s: string, k: nat, t: string)
    requires k + |t| <= |s|
    requires forall j :: 0 <= j < |t| ==> s[k + j] == t[j]
    ensures HasAt(s, k, t)
  {
    assert forall j :: 0 <= j < |t| ==> s[k..k + |t|][j] == t[j];
  }

  /** `String.Contains`: `t` occurs somewhere in `s` (the empty string occurs everywhere). */
  predicate Contains(s: string, t: string) {
    exists k :: 0 <= k <= |s| - |t| && HasAt(s, k, t)
  }

  /** Every character of `s[from..to]` is in class `cls`. */
  predicate AllIn(s: string, from: int, to: int, cls: CharClass)
    requires 0 <= from <= to <= |s|
  {
    forall k {:trigger InClass(s[k], cls)} :: from <= k < to ==> InClass(s[k], cls)
  }

  /** A string whose every member character is in `cls` lies in `cls` from end to end. */
  lemma AllInOfMembers(s: string, cls: CharClass)
    requires forall c :: c in s ==> InClass(c, cls)
    ensures AllIn(s, 0, |s|, cls)
  {
    forall k | 0 <= k < |s| ensures InClass(s[k], cls) {
      assert s[k] in s;
    }
  }

  lemma HasAtChar(s: string, k: int, t: string, j: int)
    requires HasAt(s, k, t)
    requires 0 <= j < |t|
    ensures s[k + j] == t[j]
  {
    assert s[k..k + |t|][j] == s[k + j];
  }

  /** Length of the longest run of `cls` characters that starts at `from`. */
  function Span(s: string, from: nat, cls: CharClass): (n: nat)
    requires from <= |s|
    ensures from + n <= |s|
    ensures forall k {:trigger InClass(s[k], cls)} :: from <= k < from + n ==> InClass(s[k], cls)
    ensures from + n == |s| || !InClass(s[from + n], cls)
    decreases |s| - from
  {
    if from == |s| || !InClass(s[from], cls) then 0 else 1 + Span(s, from + 1, cls)
  }

  /** A run of `cls` characters that is not followed by another one is exactly the span. */
  lemma SpanIsRun(s: string, from: nat, cls: CharClass, n: nat)
    requires from + n <= |s|
    requires forall k {:trigger InClass(s[k], cls)} :: from <= k < from + n ==> InClass(s[k], cls)
    requires from + n == |s| || !InClass(s[from + n], cls)
    ensures Span(s, from, cls) == n
  {
  }

  /** Any run of `cls` characters starting at `from` is at most the span. */
  lemma SpanIsMaximal(s: string, from: nat, cls: CharClass, n: nat)
    requires from + n <= |s|
    requires forall k {:trigger InClass(s[k], cls)} :: from <= k < from + n ==> InClass(s[k], cls)
    ensures n <= Span(s, from, cls)
  {
  }

  /** Number of occurrences of `c` in `s`. */
  function Occurrences(s: string, c: char): nat {
    multiset(s)[c]
  }

  /** `String.Join` with a one-character separator. */
  function Join(parts: seq<string>, sep: char): string {
    if |parts| == 0 then ""
    else if |parts| == 1 then parts[0]
    else parts[0] + ([sep] + Join(parts[1..], sep))
  }

  /**
   `String.Split` on one separator character: the pieces between separators,
   empty pieces included; a string without the separator gives one piece.
   */
  function Split(s: string, sep: char): (parts: seq<string>)
    ensures |parts| >= 1
    ensures forall k :: 0 <= k < |parts| ==> sep !in parts[k]
    ensures Join(parts, sep) == s
    decreases |s|
  {
    var n := Span(s, 0, Except(sep));
    if n == |s| then
      assert sep !in s by {
        forall k | 0 <= k < |s| ensures s[k] != sep {
          assert InClass(s[k], Except(sep));
        }
      }
      [s]
    else
      var head, rest := s[..n], Split(s[n + 1..], sep);
      assert sep !in head by {
        forall k | 0 <= k < |head| ensures head[k] != sep {
          assert head[k] == s[k] && InClass(s[k], Except(sep));
        }
      }
      assert s == head + [sep] + s[n + 1..];
      [head] + rest
  }

  /** Splitting a join of separator-free pieces gives the pieces back. */
  lemma {:induction false} SplitJoin(parts: seq<string>, sep: char)
    requires |parts| >= 1
    requires forall k :: 0 <= k < |parts| ==> sep !in parts[k]
    ensures Split(Join(parts, sep), sep) == parts
    decreases |parts|
  {
    var s := Join(parts, sep);
    var head := parts[0];
    forall k | 0 <= k < |head| ensures s[k] != sep {
      assert head[k] != sep;
      if |parts| > 1 {
        assert s == head + ([sep] + Join(parts[1..], sep));
      }
    }
    if |parts| == 1 {
      SpanIsRun(s, 0, Except(sep), |s|);
    } else {
      var tail := Join(parts[1..], sep);
      assert s == head + [sep] + tail;
      assert s[|head|] == sep;
      SpanIsRun(s, 0, Except(sep), |head|);
      assert s[..|head|] == head;
      assert s[|head| + 1..] == tail;
      SplitJoin(parts[1..], sep);
    }
  }

  /** Splitting yields one piece more than there are separators. */
  lemma {:induction false} SplitCount(s: string, sep: char)
    ensures |Split(s, sep)| == Occurrences(s, sep) + 1
    decreases |s|
  {
    var n := Span(s, 0, Except(sep));
    if n == |s| {
    } else {
      var head := s[..n];
      assert s == head + [sep] + s[n + 1..];
      assert multiset(s) == multiset(head) + multiset{sep} + multiset(s[n + 1..]);
      SplitCount(s[n + 1..], sep);
    }
  }
}
