/**
  String helpers shared by the search query, the error translator and the
  claim rendering: ASCII lower-casing, substring containment and Kotlin's
  joinToString.
*/
module Text {

  /** SQL LOWER / String.toLowerCase on one character, restricted to ASCII letters. */
  function LowerChar(c: char): char
  {
    if 'A' <= c <= 'Z' then (c as int + 32) as char else c
  }

  /** SQL LOWER on a whole string, character by character. */
  function Lower(s: string): string
  {
    seq(|s|, i requires 0 <= i < |s| => LowerChar(s[i]))
  }

  lemma LowerIdempotent(s: string)
    ensures Lower(Lower(s)) == Lower(s)
  {
    assert forall i :: 0 <= i < |s| ==> LowerChar(LowerChar(s[i])) == LowerChar(s[i]);
  }

  /** `part` occurs somewhere in `text` (a LIKE '%part%' without wildcards in `part`). */
  predicate Contains(text: string, part: string)
    decreases |text|
  {
    |part| <= |text| && (text[..|part|] == part || Contains(text[1..], part))
  }

  /** `part` sits in `text` starting at index i. */
  predicate OccursAt(text: string, part: string, i: nat)
  {
    i + |part| <= |text| && text[i..i + |part|] == part
  }

  /** Contains agrees with the positional definition of a substring, in both directions. */
  lemma {:induction false} ContainsIff(text: string, part: string)
    ensures Contains(text, part) <==> exists i: nat :: OccursAt(text, part, i)
    decreases |text|
  {
    if Contains(text, part) {
      if text[..|part|] == part {
        assert OccursAt(text, part, 0);
      } else {
        ContainsIff(text[1..], part);
        var j: nat :| OccursAt(text[1..], part, j);
        assert text[j + 1..j + 1 + |part|] == text[1..][j..j + |part|];
        assert OccursAt(text, part, j + 1);
      }
    } else if exists i: nat :: OccursAt(text, part, i) {
      var i: nat :| OccursAt(text, part, i);
      if i > 0 {
        assert text[1..][i - 1..i - 1 + |part|] == text[i..i + |part|];
        assert OccursAt(text[1..], part, i - 1);
        ContainsIff(text[1..], part);
      }
    }
  }

  /** A part placed at a known position is contained. */
  lemma ContainsAt(text: string, part: string, i: nat)
    requires OccursAt(text, part, i)
    ensures Contains(text, part)
  {
    ContainsIff(text, part);
  }

  /** Every character of a contained part occurs in the text. */
  lemma ContainsChars(text: string, part: string)
    requires Contains(text, part)
    ensures forall k :: 0 <= k < |part| ==> part[k] in text
  {
    ContainsIff(text, part);
    var i: nat :| OccursAt(text, part, i);
    forall k | 0 <= k < |part|
      ensures part[k] in text
    {
      assert part[k] == text[i + k];
    }
  }

  /** A part holding a character the text lacks is not contained. */
  lemma MissingCharNotContained(text: string, part: string, k: nat)
    requires k < |part| && part[k] !in text
    ensures !Contains(text, part)
  {
    if Contains(text, part) {
      ContainsChars(text, part);
    }
  }

  /** Lower-casing commutes with slicing. */
  lemma LowerSlice(s: string, i: nat, j: nat)
    requires i <= j <= |s|
    ensures Lower(s)[i..j] == Lower(s[i..j])
  {
  }

  /** A lower-case letter that appears in neither case in s does not appear in Lower(s). */
  lemma LowerMissing(s: string, c: char)
    requires 'a' <= c <= 'z'
    requires c !in s && (c as int - 32) as char !in s
    ensures c !in Lower(s)
  {
    assert forall i :: 0 <= i < |s| ==> Lower(s)[i] == LowerChar(s[i]) != c;
  }

  /** Kotlin's joinToString(separator): no separator before the first part or after the last. */
  function Join(parts: seq<string>, separator: string): string
  {
    if |parts| == 0 then ""
    else if |parts| == 1 then parts[0]
    else parts[0] + separator + Join(parts[1..], separator)
  }

  /** Joining two non-empty lists puts exactly one separator between their joins. */
  lemma {:induction false} JoinConcat(a: seq<string>, b: seq<string>, separator: string)
    requires |a| > 0 && |b| > 0
    ensures Join(a + b, separator) == Join(a, separator) + separator + Join(b, separator)
    decreases |a|
  {
    if |a| == 1 {
      assert (a + b)[1..] == b;
    } else {
      assert (a + b)[1..] == a[1..] + b;
      JoinConcat(a[1..], b, separator);
    }
  }

  function TotalLength(parts: seq<string>): nat
  {
    if parts == [] then 0 else |parts[0]| + TotalLength(parts[1..])
  }

  /** The join holds every part and one separator per gap, nothing else. */
  lemma {:induction false} JoinLength(parts: seq<string>, separator: string)
    requires |parts| > 0
    ensures |Join(parts, separator)| == TotalLength(parts) + (|parts| - 1) * |separator|
  {
    if |parts| > 1 {
      JoinLength(parts[1..], separator);
    }
  }

  /** The join begins with the first part and ends with the last one. */
  lemma {:induction false} JoinEnds(parts: seq<string>, separator: string)
    requires |parts| > 0
    ensures |parts[0]| <= |Join(parts, separator)|
    ensures Join(parts, separator)[..|parts[0]|] == parts[0]
    ensures |parts[|parts| - 1]| <= |Join(parts, separator)|
    ensures Join(parts, separator)[|Join(parts, separator)| - |parts[|parts| - 1]|..] == parts[|parts| - 1]
  {
    if |parts| > 1 {
      var init := parts[..|parts| - 1];
      var last := parts[|parts| - 1];
      assert parts == init + [last];
      JoinConcat(init, [last], separator);
    }
  }
}
