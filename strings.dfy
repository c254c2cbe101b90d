/**
  The string operations the device-name logic uses: ASCII lower-casing,
  prefix and substring tests, the position of the first occurrence of a
  pattern, and the splits `split(pat).nth(1)` and `split(c).next()`.
 */
module Strings {
  import opened Wrappers

  /** Lower-case form of one character; only `A`..`Z` change. */
  function LowerChar(c: char): (r: char)
    ensures 'A' <= c <= 'Z' ==> r as int == c as int + 32
    ensures !('A' <= c <= 'Z') ==> r == c
  {
    if 'A' <= c <= 'Z' then (c as int + 32) as char else c
  }

  /** Lower-case form of a string, character by character. */
  function ToLower(s: string): (r: string)
    ensures |r| == |s|
    ensures forall i :: 0 <= i < |s| ==> r[i] == LowerChar(s[i])
  {
    seq(|s|, i requires 0 <= i < |s| => LowerChar(s[i]))
  }

  predicate IsUpper(c: char) {
    'A' <= c <= 'Z'
  }

  /** Lower-casing leaves no upper-case letter, is idempotent, and changes
      exactly the upper-case letters. */
  lemma LowerCharIsLower(c: char)
    ensures !IsUpper(LowerChar(c))
    ensures LowerChar(LowerChar(c)) == LowerChar(c)
    ensures LowerChar(c) == c <==> !IsUpper(c)
  {
  }

  /** A lower-cased string holds no upper-case letter, lower-casing it again
      changes nothing, and a string is its own lower-case form exactly when
      it holds no upper-case letter. */
  lemma ToLowerIsLower(s: string)
    ensures forall i :: 0 <= i < |s| ==> !IsUpper(ToLower(s)[i])
    ensures ToLower(ToLower(s)) == ToLower(s)
    ensures ToLower(s) == s <==> forall i :: 0 <= i < |s| ==> !IsUpper(s[i])
  {
    forall i | 0 <= i < |s|
      ensures !IsUpper(ToLower(s)[i]) && ToLower(ToLower(s))[i] == ToLower(s)[i]
      ensures ToLower(s)[i] == s[i] <==> !IsUpper(s[i])
    {
      LowerCharIsLower(s[i]);
    }
    if forall i :: 0 <= i < |s| ==> !IsUpper(s[i]) {
      assert ToLower(s) == s;
    } else {
      var i :| 0 <= i < |s| && IsUpper(s[i]);
      assert ToLower(s)[i] != s[i];
    }
  }

  /** Lower-casing works character by character, so it distributes over
      concatenation. */
  lemma ToLowerConcat(a: string, b: string)
    ensures ToLower(a + b) == ToLower(a) + ToLower(b)
  {
  }

  predicate StartsWith(s: string, prefix: string) {
    |prefix| <= |s| && s[..|prefix|] == prefix
  }

  /** `pat` occurs in `s` at position `i`. */
  predicate OccursAt(s: string, pat: string, i: nat) {
    i + |pat| <= |s| && s[i..i + |pat|] == pat
  }

  /** Position of the first occurrence of `pat` in `s` at or after `from`. */
  function FindFrom(s: string, pat: string, from: nat): (r: Option<nat>)
    decreases |s| - from
    ensures r.Some? ==> from <= r.value && OccursAt(s, pat, r.value)
    ensures r.Some? ==> forall j: nat :: from <= j < r.value ==> !OccursAt(s, pat, j)
    ensures r.None? ==> forall j: nat :: from <= j ==> !OccursAt(s, pat, j)
  {
    if from + |pat| > |s| then None
    else if s[from..from + |pat|] == pat then Some(from)
    else FindFrom(s, pat, from + 1)
  }

  /** Position of the first occurrence of `pat` in `s`. */
  function Find(s: string, pat: string): (r: Option<nat>)
    ensures r.Some? ==> OccursAt(s, pat, r.value) && forall j: nat :: j < r.value ==> !OccursAt(s, pat, j)
    ensures r.None? ==> forall j: nat :: !OccursAt(s, pat, j)
  {
    FindFrom(s, pat, 0)
  }

  predicate Contains(s: string, pat: string) {
    Find(s, pat).Some?
  }

  /** `s.split(pat).nth(1)` for a non-empty pattern: the text between the
      first and the second occurrence of `pat`, or after the first when
      there is no second; `None` when `pat` does not occur. */
  function SecondField(s: string, pat: string): (r: Option<string>)
    requires |pat| > 0
    ensures r.None? <==> !Contains(s, pat)
    ensures r.Some? ==> !Contains(r.value, pat)
    ensures r.Some? ==>
              var start, end := Find(s, pat).value + |pat|, Find(s, pat).value + |pat| + |r.value|;
              end <= |s| && s[start..end] == r.value &&
              (end == |s| || OccursAt(s, pat, end)) &&
              forall k: nat :: start <= k < end ==> !OccursAt(s, pat, k)
  {
    match Find(s, pat)
    case None => None
    case Some(i) =>
      var rest := s[i + |pat|..];
      match Find(rest, pat)
      case None =>
        ShiftedOccurrences(s, pat, i + |pat|, |rest|);
        Some(rest)
      case Some(j) =>
        NoOccurrenceInPrefix(rest, pat, j);
        ShiftedOccurrences(s, pat, i + |pat|, j);
        Some(rest[..j])
  }

  /** Occurrences in a suffix `s[d..]` are the occurrences in `s` shifted by `d`. */
  lemma ShiftedOccurrences(s: string, pat: string, d: nat, n: nat)
    requires d + n <= |s|
    ensures forall k: nat :: d <= k <= d + n ==> (OccursAt(s[d..], pat, k - d) <==> OccursAt(s, pat, k))
  {
    forall k: nat | d <= k <= d + n
      ensures OccursAt(s[d..], pat, k - d) <==> OccursAt(s, pat, k)
    {
      if k + |pat| <= |s| {
        assert s[d..][k - d..k - d + |pat|] == s[k..k + |pat|];
      }
    }
  }

  /** A pattern that does not start before `j` does not occur in `s[..j]`. */
  lemma NoOccurrenceInPrefix(s: string, pat: string, j: nat)
    requires |pat| > 0 && j <= |s|
    requires forall k: nat :: k < j ==> !OccursAt(s, pat, k)
    ensures forall k: nat :: !OccursAt(s[..j], pat, k)
  {
    forall k: nat
      ensures !OccursAt(s[..j], pat, k)
    {
      if k + |pat| <= j {
        assert k < j && !OccursAt(s, pat, k);
        assert s[..j][k..k + |pat|] == s[k..k + |pat|];
      }
    }
  }

  /** A prefix of a string in which `pat` does not occur holds no occurrence either. */
  lemma PrefixKeepsAbsence(s: string, prefix: string, pat: string)
    requires StartsWith(s, prefix) && !Contains(s, pat)
    ensures !Contains(prefix, pat)
  {
    forall k: nat | OccursAt(prefix, pat, k)
      ensures OccursAt(s, pat, k)
    {
      assert s[k..k + |pat|] == prefix[k..k + |pat|];
    }
  }

  /** A string in which `pat` does not occur, followed by a suffix without the
      last character of `pat`, differs from any string in which `pat` occurs. */
  lemma AppendedDiffers(s: string, pat: string, i: nat, body: string, suffix: string)
    requires |pat| > 0 && OccursAt(s, pat, i)
    requires pat[|pat| - 1] !in suffix && !Contains(body, pat)
    ensures body + suffix != s
  {
    var p := i + |pat| - 1;
    if |body + suffix| == |s| {
      if p < |body| {
        assert !OccursAt(body, pat, i);
        assert (body + suffix)[i..i + |pat|] == body[i..i + |pat|];
      } else {
        assert (body + suffix)[p] == suffix[p - |body|];
        assert s[p] == s[i..i + |pat|][|pat| - 1];
      }
    }
  }

  /** `s.split(pat)` for a non-empty pattern: the texts between successive
      occurrences, left to right. */
  function Split(s: string, pat: string): (r: seq<string>)
    requires |pat| > 0
    ensures |r| > 0
    decreases |s|
  {
    match Find(s, pat)
    case None => [s]
    case Some(i) => [s[..i]] + Split(s[i + |pat|..], pat)
  }

  /** The fields joined back together with `pat` between them. */
  function Join(fields: seq<string>, pat: string): string
    requires |fields| > 0
  {
    if |fields| == 1 then fields[0] else fields[0] + pat + Join(fields[1..], pat)
  }

  /** Splitting loses nothing: joining the fields with the pattern gives the
      string back. */
  lemma {:induction false} SplitJoin(s: string, pat: string)
    requires |pat| > 0
    ensures Join(Split(s, pat), pat) == s
    decreases |s|
  {
    match Find(s, pat)
    case None =>
    case Some(i) =>
      var rest := s[i + |pat|..];
      SplitJoin(rest, pat);
      assert Split(s, pat)[1..] == Split(rest, pat);
      assert s == s[..i] + pat + rest;
  }

  /** `SecondField` is the second field of `Split`, and absent exactly when
      there is only one field. */
  lemma SecondFieldIsSplit(s: string, pat: string)
    requires |pat| > 0
    ensures SecondField(s, pat).None? <==> |Split(s, pat)| == 1
    ensures SecondField(s, pat).Some? ==> SecondField(s, pat).value == Split(s, pat)[1]
  {
    match Find(s, pat)
    case None =>
    case Some(i) =>
      var rest := s[i + |pat|..];
      assert Split(s, pat)[1..] == Split(rest, pat);
  }

  /** `s.split(c).next()`: the text before the first `c`, or all of `s`. */
  function FirstField(s: string, c: char): (r: string)
    ensures StartsWith(s, r)
    ensures c !in r
    ensures |r| < |s| ==> s[|r|] == c
  {
    if |s| == 0 || s[0] == c then "" else [s[0]] + FirstField(s[1..], c)
  }
}
