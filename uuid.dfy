/**
 * `generateUUID()`: every `x` and `y` of the template
 * `xxxxxxxx-xxxx-4xxx-yxxx-xxxxxxxxxxxx` is replaced, left to right, by a
 * hex digit drawn from `Math.random`; a `y` keeps only the two low bits of its
 * draw and sets bit 3 (`(r & 0x3) | 0x8`). The draws are a parameter here:
 * one nibble `(Math.random() * 16) | 0` per placeholder, in order.
 */
module Uuid {

  const Template: string := "xxxxxxxx-xxxx-4xxx-yxxx-xxxxxxxxxxxx"

  /** The number of placeholders in the template, hence of random draws. */
  const Draws: nat := 31

  /** A value of `(Math.random() * 16) | 0`. */
  type Nibble = n: int | 0 <= n < 16

  const HexDigits: string := "0123456789abcdef"

  /** `v.toString(16)` for a single digit. */
  function HexDigit(n: Nibble): (c: char)
    ensures IsLowerHex(c)
  {
    HexDigits[n]
  }

  predicate IsLowerHex(c: char) {
    '0' <= c <= '9' || 'a' <= c <= 'f'
  }

  /** The digit a `y` placeholder gets: `(r & 0x3) | 0x8`, one of 8, 9, 10, 11. */
  function VariantBits(r: Nibble): (v: Nibble)
    ensures 8 <= v <= 11 && v % 4 == r % 4
  {
    var b := ((r as bv8) & 0x3) | 0x8;
    assert b as int == 8 + r % 4 by {
      assert (r as bv8) & 0x3 == (r % 4) as bv8;
    }
    b as int
  }

  /** The number of `x` and `y` characters in `t`, each replaced by one draw. */
  function Placeholders(t: string): (n: nat)
    ensures n <= |t|
  {
    if t == [] then 0 else (if t[0] == 'x' || t[0] == 'y' then 1 else 0) + Placeholders(t[1..])
  }

  /** What may stand where the template has `p`. */
  predicate FilledAt(p: char, c: char) {
    if p == 'x' then IsLowerHex(c)
    else if p == 'y' then c in "89ab"
    else c == p
  }

  /**
   * The `replace(/[xy]/g, …)` callback applied along the template, drawing
   * one nibble per placeholder.
   */
  function Fill(t: string, draws: seq<Nibble>): (r: string)
    requires |draws| == Placeholders(t)
    ensures |r| == |t|
    ensures forall k :: 0 <= k < |t| ==> FilledAt(t[k], r[k])
  {
    if t == [] then []
    else if t[0] == 'x' then
      [HexDigit(draws[0])] + Fill(t[1..], draws[1..])
    else if t[0] == 'y' then
      [HexDigit(VariantBits(draws[0]))] + Fill(t[1..], draws[1..])
    else
      [t[0]] + Fill(t[1..], draws)
  }

  /**
   * `generateUUID()`: the template filled by the draws. Every identifier it
   * produces has the layout of a lower-case version-4 UUID.
   */
  function GenerateUuid(draws: seq<Nibble>): (id: string)
    requires |draws| == Draws
    ensures IsUuid(id)
    ensures id[8] == id[13] == id[18] == id[23] == '-' && id[14] == '4' && id[19] in "89ab"
  {
    TemplatePlaceholders();
    TemplateLayout();
    FilledLayoutIsUuid(Template, draws);
    Fill(Template, draws)
  }

  /** Filling any template laid out as `PatternAt` gives a UUID. */
  lemma FilledLayoutIsUuid(t: string, draws: seq<Nibble>)
    requires |t| == 36 && forall k :: 0 <= k < 36 ==> t[k] == PatternAt(k)
    requires |draws| == Placeholders(t)
    ensures var id := Fill(t, draws);
      IsUuid(id) && id[8] == id[13] == id[18] == id[23] == '-' && id[14] == '4' && id[19] in "89ab"
  {
    var id := Fill(t, draws);
    assert FilledAt(t[19], id[19]);
  }

  /**
   * The layout of a version-4 UUID in lower case: 36 characters, hyphens at
   * 8, 13, 18 and 23, the version digit 4 at 14, a variant digit among
   * 8, 9, a, b at 19, and hex digits everywhere else.
   */
  predicate IsUuid(s: string) {
    |s| == 36 && forall k :: 0 <= k < 36 ==> FilledAt(PatternAt(k), s[k])
  }

  /** The template character at position `k` of a UUID. */
  function PatternAt(k: int): (c: char)
    ensures c in "-4xy"
  {
    if k == 8 || k == 13 || k == 18 || k == 23 then '-'
    else if k == 14 then '4'
    else if k == 19 then 'y'
    else 'x'
  }

  /** Every string with the UUID layout is produced by some sequence of draws. */
  lemma UuidIsGenerated(s: string)
    requires IsUuid(s)
    ensures exists draws: seq<Nibble> :: |draws| == Draws && GenerateUuid(draws) == s
  {
    TemplateLayout();
    TemplatePlaceholders();
    UuidFitsLayout(Template, s);
    var draws := Unfill(Template, s);
    assert GenerateUuid(draws) == s;
  }

  /** A UUID fits, character by character, any template laid out as `PatternAt`. */
  lemma UuidFitsLayout(t: string, s: string)
    requires |t| == 36 && forall k :: 0 <= k < 36 ==> t[k] == PatternAt(k)
    requires IsUuid(s)
    ensures |s| == |t| && forall k :: 0 <= k < |t| ==> FilledAt(t[k], s[k])
  {
  }

  /** The hex value of a lower-case hex digit. */
  function HexValue(c: char): (n: Nibble)
    requires IsLowerHex(c)
    ensures HexDigit(n) == c
  {
    if c <= '9' then c as int - '0' as int else c as int - 'a' as int + 10
  }

  /** Draws that make `Fill` produce `s`, read back from `s`. */
  function Unfill(t: string, s: string): (draws: seq<Nibble>)
    requires |s| == |t| && forall k :: 0 <= k < |t| ==> FilledAt(t[k], s[k])
    ensures |draws| == Placeholders(t) && Fill(t, draws) == s
  {
    if t == [] then []
    else
      assert forall k :: 0 <= k < |t| - 1 ==> t[1..][k] == t[k + 1] && s[1..][k] == s[k + 1];
      assert FilledAt(t[0], s[0]);
      var rest := Unfill(t[1..], s[1..]);
      if t[0] == 'x' then
        var d := [HexValue(s[0])] + rest;
        assert d[1..] == rest;
        d
      else if t[0] == 'y' then
        var r: Nibble := HexValue(s[0]) - 8;
        assert HexDigit(VariantBits(r)) == s[0];
        var d := [r] + rest;
        assert d[1..] == rest;
        d
      else
        rest
  }

  lemma TemplatePlaceholders()
    ensures Placeholders(Template) == Draws
  {
    HeadPlaceholders();
    MiddlePlaceholders();
    TailPlaceholders();
    TemplateSegments();
    PlaceholdersAppend("xxxxxxxx-xxxx" + "-4xxx-yxxx-", "xxxxxxxxxxxx");
    PlaceholdersAppend("xxxxxxxx-xxxx", "-4xxx-yxxx-");
  }

  lemma TemplateSegments() ensures Template == "xxxxxxxx-xxxx" + "-4xxx-yxxx-" + "xxxxxxxxxxxx" {}

  lemma HeadPlaceholders() ensures Placeholders("xxxxxxxx-xxxx") == 12 {}
  lemma MiddlePlaceholders() ensures Placeholders("-4xxx-yxxx-") == 7 {}
  lemma TailPlaceholders() ensures Placeholders("xxxxxxxxxxxx") == 12 {}

  lemma {:induction false} PlaceholdersAppend(a: string, b: string)
    ensures Placeholders(a + b) == Placeholders(a) + Placeholders(b)
  {
    if a == [] {
      assert a + b == b;
    } else {
      assert (a + b)[1..] == a[1..] + b;
      PlaceholdersAppend(a[1..], b);
    }
  }

  lemma TemplateLayout()
    ensures |Template| == 36 && forall k :: 0 <= k < 36 ==> Template[k] == PatternAt(k)
  {
  }
}
