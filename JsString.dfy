/**
 * The JavaScript string operations the feed client relies on, restricted to
 * what it needs: upper-casing (ASCII letters only) and `Array.prototype.join`
 * with a one-character separator. The client never calls `split`:
 * `String.prototype.split` by one character is modelled only as the inverse
 * of the `join`, to state that the query round-trips.
 */
module JsString {

  predicate IsLower(c: char) {
    'a' <= c <= 'z'
  }

  /** The upper-case form of an ASCII lower-case letter; any other character is kept. */
  function UpperChar(c: char): (u: char)
    ensures !IsLower(u)
  {
    if IsLower(c) then (c as int - 32) as char else c
  }

  /** Upper-casing of a string, on ASCII letters. */
  function ToUpperCase(s: string): (r: string)
    ensures |r| == |s|
    ensures forall i :: 0 <= i < |r| ==> !IsLower(r[i])
    ensures forall i :: 0 <= i < |r| ==> r[i] == s[i] || IsLower(s[i])
  {
    if |s| == 0 then [] else [UpperChar(s[0])] + ToUpperCase(s[1..])
  }

  lemma {:induction false} ToUpperCaseAt(s: string, i: nat)
    requires i < |s|
    ensures ToUpperCase(s)[i] == UpperChar(s[i])
    decreases i
  {
    if i > 0 {
      ToUpperCaseAt(s[1..], i - 1);
    }
  }

  /** Upper-casing twice is upper-casing once. */
  lemma ToUpperCaseIdempotent(s: string)
    ensures ToUpperCase(ToUpperCase(s)) == ToUpperCase(s)
  {
    var u := ToUpperCase(s);
    forall i | 0 <= i < |u|
      ensures ToUpperCase(u)[i] == u[i]
    {
      ToUpperCaseAt(u, i);
    }
  }

  /** A string with no lower-case letter is its own upper-case form. */
  lemma ToUpperCaseOfUpper(s: string)
    requires forall i :: 0 <= i < |s| ==> !IsLower(s[i])
    ensures ToUpperCase(s) == s
  {
    forall i | 0 <= i < |s|
      ensures ToUpperCase(s)[i] == s[i]
    {
      ToUpperCaseAt(s, i);
    }
  }

  /** Upper-casing introduces no character other than an upper-case letter. */
  lemma ToUpperCaseAddsNothing(s: string, c: char)
    requires c !in s && !('A' <= c <= 'Z')
    ensures c !in ToUpperCase(s)
  {
    forall i | 0 <= i < |s|
      ensures ToUpperCase(s)[i] != c
    {
      ToUpperCaseAt(s, i);
    }
  }

  /** `c` and `d` are the same character up to ASCII letter case. */
  predicate SameIgnoringCase(c: char, d: char) {
    c == d || (IsLower(c) && d as int == c as int - 32) || (IsLower(d) && c as int == d as int - 32)
  }

  lemma UpperCharEqualIff(c: char, d: char)
    ensures UpperChar(c) == UpperChar(d) <==> SameIgnoringCase(c, d)
  {
  }

  /** Two strings equal up to ASCII letter case upper-case to the same string, and only those. */
  lemma ToUpperCaseEqualIff(a: string, b: string)
    ensures ToUpperCase(a) == ToUpperCase(b) <==>
              |a| == |b| && forall i :: 0 <= i < |a| ==> SameIgnoringCase(a[i], b[i])
  {
    if |a| == |b| {
      var ua, ub := ToUpperCase(a), ToUpperCase(b);
      forall i | 0 <= i < |a|
        ensures ua[i] == ub[i] <==> SameIgnoringCase(a[i], b[i])
      {
        ToUpperCaseAt(a, i);
        ToUpperCaseAt(b, i);
        UpperCharEqualIff(a[i], b[i]);
      }
    }
  }

  /** The parts with the separator between each two of them. */
  function Join(parts: seq<string>, sep: char): (s: string)
    ensures |parts| >= 1 ==> |parts[0]| <= |s| && s[..|parts[0]|] == parts[0]
    ensures (forall i :: 0 <= i < |parts| ==> sep !in parts[i]) ==>
              multiset(s)[sep] == if |parts| == 0 then 0 else |parts| - 1
  {
    if |parts| == 0 then ""
    else if |parts| == 1 then parts[0]
    else parts[0] + [sep] + Join(parts[1..], sep)
  }

  /** Splitting at every separator: always at least one part; the empty string gives one empty part. */
  function Split(s: string, sep: char): (parts: seq<string>)
    ensures |parts| >= 1
    ensures forall i :: 0 <= i < |parts| ==> sep !in parts[i]
  {
    if |s| == 0 then [""]
    else if s[0] == sep then [""] + Split(s[1..], sep)
    else var rest := Split(s[1..], sep); [[s[0]] + rest[0]] + rest[1..]
  }

  /** Splitting a string without the separator gives the string back whole. */
  lemma {:induction false} SplitWithoutSeparator(s: string, sep: char)
    requires sep !in s
    ensures Split(s, sep) == [s]
  {
    if |s| > 0 {
      SplitWithoutSeparator(s[1..], sep);
      assert [s[0]] + s[1..] == s;
    }
  }

  /** Splitting `a + sep + b` at the first separator, which ends `a`. */
  lemma {:induction false} SplitAfterFirst(a: string, b: string, sep: char)
    requires sep !in a
    ensures Split(a + [sep] + b, sep) == [a] + Split(b, sep)
  {
    if |a| == 0 {
      assert a + [sep] + b == [sep] + b;
      assert ([sep] + b)[1..] == b;
    } else {
      SplitAfterFirst(a[1..], b, sep);
      assert (a + [sep] + b)[1..] == a[1..] + [sep] + b;
      assert [a[0]] + a[1..] == a;
    }
  }

  /** Joining separator-free parts and splitting again gives the parts back. */
  lemma {:induction false} SplitJoin(parts: seq<string>, sep: char)
    requires |parts| >= 1
    requires forall i :: 0 <= i < |parts| ==> sep !in parts[i]
    ensures Split(Join(parts, sep), sep) == parts
  {
    if |parts| == 1 {
      SplitWithoutSeparator(parts[0], sep);
    } else {
      SplitJoin(parts[1..], sep);
      SplitAfterFirst(parts[0], Join(parts[1..], sep), sep);
      assert [parts[0]] + parts[1..] == parts;
    }
  }
}
