/**
 * The PostgreSQL built-ins that the catalog queries rely on: case-insensitive
 * pattern matching (`ILIKE '%x%'`) and `string_to_array(s, ',')`.
 * Case folding covers the ASCII letters only.
 */
module Postgres {

  // ---------------------------------------------------------------------------
  // ILIKE '%needle%'
  // ---------------------------------------------------------------------------

  function LowerChar(c: char): char {
    if 'A' <= c <= 'Z' then (c as int + 32) as char else c
  }

  function Lower(s: string): (r: string)
    ensures |r| == |s|
  {
    seq(|s|, i requires 0 <= i < |s| => LowerChar(s[i]))
  }

  /** `needle` occurs in `hay` at position `i`. */
  predicate OccursAt(hay: string, needle: string, i: int) {
    0 <= i && i + |needle| <= |hay| && hay[i..i + |needle|] == needle
  }

  /** Substring search, scanning the start positions from left to right. */
  function Contains(hay: string, needle: string): (b: bool)
    ensures b <==> exists i :: OccursAt(hay, needle, i)
    decreases |hay|
  {
    if |needle| <= |hay| && hay[..|needle|] == needle then
      assert OccursAt(hay, needle, 0);
      true
    else if |hay| == 0 then
      false
    else
      var b := Contains(hay[1..], needle);
      if b then
        var i :| OccursAt(hay[1..], needle, i);
        assert OccursAt(hay, needle, i + 1) by {
          assert hay[i + 1..i + 1 + |needle|] == hay[1..][i..i + |needle|];
        }
        true
      else
        assert forall i :: OccursAt(hay, needle, i) ==> i >= 1 && OccursAt(hay[1..], needle, i - 1) by {
          forall i | OccursAt(hay, needle, i)
            ensures i >= 1 && OccursAt(hay[1..], needle, i - 1)
          {
            assert hay[..|needle|] == hay[0..|needle|];
            if i != 0 {
              assert hay[1..][i - 1..i - 1 + |needle|] == hay[i..i + |needle|];
            }
          }
        }
        false
  }

  /**
   * `value ILIKE '%pattern%'`: the lower-cased pattern occurs in the lower-cased value.
   * The pattern is taken literally (no `%` or `_` inside it).
   */
  function ILikeSubstring(value: string, pattern: string): (b: bool)
    ensures b <==> exists i :: OccursAt(Lower(value), Lower(pattern), i)
    ensures pattern == "" ==> b
  {
    assert pattern == "" ==> OccursAt(Lower(value), Lower(pattern), 0);
    Contains(Lower(value), Lower(pattern))
  }

  // ---------------------------------------------------------------------------
  // string_to_array(s, ',')
  // ---------------------------------------------------------------------------

  /** Glue the parts back together with a comma between neighbours. */
  function JoinWithComma(parts: seq<string>): string
    requires |parts| >= 1
  {
    if |parts| == 1 then parts[0] else parts[0] + "," + JoinWithComma(parts[1..])
  }

  /** Split at every comma; empty parts are kept, so the result is never empty. */
  function SplitOnComma(s: string): (parts: seq<string>)
    ensures |parts| >= 1
    ensures forall k :: 0 <= k < |parts| ==> ',' !in parts[k]
    ensures JoinWithComma(parts) == s
    decreases |s|
  {
    if |s| == 0 then
      [""]
    else
      var rest := SplitOnComma(s[1..]);
      if s[0] == ',' then
        var parts := [""] + rest;
        assert parts[1..] == rest;
        assert s == "," + s[1..];
        parts
      else
        var parts := [[s[0]] + rest[0]] + rest[1..];
        assert parts[1..] == rest[1..];
        assert ',' !in parts[0];
        assert s == [s[0]] + s[1..];
        parts
  }

  /**
   * PostgreSQL's `string_to_array(s, ',')`: an empty string gives an empty
   * array; otherwise every comma-separated component, empty ones included.
   */
  function StringToArray(s: string): (parts: seq<string>)
    ensures s == "" <==> parts == []
    ensures forall k :: 0 <= k < |parts| ==> ',' !in parts[k]
    ensures s != "" ==> JoinWithComma(parts) == s
  {
    if s == "" then [] else SplitOnComma(s)
  }

  /** Splitting is the only comma-free decomposition of a string: any parts without commas that join to `s` are `SplitOnComma(s)`. */
  lemma {:induction false} SplitOnCommaUnique(s: string, parts: seq<string>)
    requires |parts| >= 1
    requires forall k :: 0 <= k < |parts| ==> ',' !in parts[k]
    requires JoinWithComma(parts) == s
    ensures parts == SplitOnComma(s)
    decreases |s|, |parts[0]|
  {
    if |s| == 0 {
      assert |parts| == 1;
    } else if |parts[0]| == 0 {
      // the string starts with the separator
      assert |parts| > 1;
      assert s == "," + JoinWithComma(parts[1..]);
      assert s[0] == ',';
      assert s[1..] == JoinWithComma(parts[1..]);
      SplitOnCommaUnique(s[1..], parts[1..]);
      assert parts == [""] + parts[1..];
    } else {
      var c := parts[0][0];
      var tail := [parts[0][1..]] + parts[1..];
      assert tail[1..] == parts[1..];
      assert forall k :: 0 <= k < |tail| ==> ',' !in tail[k] by {
        forall k | 0 <= k < |tail| ensures ',' !in tail[k] {
          if k == 0 {
            assert parts[0] == [c] + parts[0][1..];
          } else {
            assert tail[k] == parts[k];
          }
        }
      }
      assert parts[0] == [c] + parts[0][1..];
      if |parts| == 1 {
        assert s == [c] + JoinWithComma(tail);
      } else {
        assert s == [c] + (parts[0][1..] + "," + JoinWithComma(parts[1..]));
        assert s == [c] + JoinWithComma(tail);
      }
      assert s[0] == c && c != ',';
      assert s[1..] == JoinWithComma(tail);
      SplitOnCommaUnique(s[1..], tail);
      assert parts == [[c] + tail[0]] + tail[1..];
    }
  }
}
