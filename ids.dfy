/** Document identities.
 *
 *  Request parameters carry identities as strings; the store keys documents by
 *  ObjectId. `ValidId` is ObjectId.is_valid on a string, `ToOid` is the
 *  ObjectId(...) conversion, and an `Oid` is the canonical text of an ObjectId
 *  (what str(ObjectId) prints): 24 lower-case hexadecimal digits.
 */
module Ids {

  predicate IsHexDigit(c: char) {
    '0' <= c <= '9' || 'a' <= c <= 'f' || 'A' <= c <= 'F'
  }

  predicate IsLowerHexDigit(c: char) {
    '0' <= c <= '9' || 'a' <= c <= 'f'
  }

  /** ObjectId.is_valid on a string: exactly 24 hexadecimal digits, either case. */
  predicate ValidId(s: string) {
    |s| == 24 && forall i :: 0 <= i < |s| ==> IsHexDigit(s[i])
  }

  predicate IsCanonical(s: string) {
    |s| == 24 && forall i :: 0 <= i < |s| ==> IsLowerHexDigit(s[i])
  }

  /** The text of an ObjectId, as str(ObjectId(...)) renders it. */
  type Oid = s: string | IsCanonical(s) witness "000000000000000000000000"

  function LowerHex(c: char): (d: char)
    requires IsHexDigit(c)
    ensures IsLowerHexDigit(d)
    ensures IsLowerHexDigit(c) ==> d == c
  {
    if 'A' <= c <= 'F' then (c as int - 'A' as int + 'a' as int) as char else c
  }

  /** ObjectId(s): the digits of `s`, read case-insensitively. */
  function ToOid(s: string): (o: Oid)
    requires ValidId(s)
    ensures ValidId(o)
    ensures IsCanonical(s) ==> o == s
  {
    var o := seq(24, i requires 0 <= i < 24 => LowerHex(s[i]));
    assert IsCanonical(s) ==> o == s by {
      if IsCanonical(s) {
        assert forall i :: 0 <= i < 24 ==> o[i] == s[i];
      }
    }
    o
  }

  /** Every Oid is itself a valid id and converts back to itself:
      ObjectId(str(oid)) == oid. */
  lemma OidRoundTrip(o: Oid)
    ensures ValidId(o) && ToOid(o) == o
  {
  }

  /** Two spellings that differ only in letter case name the same document. */
  lemma CaseInsensitive(s: string, t: string)
    requires ValidId(s) && ValidId(t)
    requires forall i :: 0 <= i < 24 ==> LowerHex(s[i]) == LowerHex(t[i])
    ensures ToOid(s) == ToOid(t)
  {
  }

  /** The id list a note stores for a request's tag strings:
      [ObjectId(t) for t in tags if ObjectId.is_valid(t)]. */
  function ParseIds(xs: seq<string>): (r: seq<Oid>)
    ensures |r| <= |xs|
    ensures forall o :: o in r <==> exists i :: 0 <= i < |xs| && ValidId(xs[i]) && ToOid(xs[i]) == o
    ensures (forall i :: 0 <= i < |xs| ==> ValidId(xs[i])) ==> |r| == |xs|
  {
    if xs == [] then []
    else
      var rest := ParseIds(xs[1..]);
      assert forall i :: 1 <= i < |xs| ==> xs[i] == xs[1..][i - 1];
      (if ValidId(xs[0]) then [ToOid(xs[0])] else []) + rest
  }

  /** ParseIds keeps the request's order: it distributes over concatenation. */
  lemma {:induction false} ParseIdsAppend(xs: seq<string>, ys: seq<string>)
    ensures ParseIds(xs + ys) == ParseIds(xs) + ParseIds(ys)
  {
    if xs == [] {
      assert xs + ys == ys;
    } else {
      var head := if ValidId(xs[0]) then [ToOid(xs[0])] else [];
      assert (xs + ys)[0] == xs[0] && (xs + ys)[1..] == xs[1..] + ys;
      assert ParseIds(xs + ys) == head + ParseIds(xs[1..] + ys);
      assert ParseIds(xs) == head + ParseIds(xs[1..]);
      ParseIdsAppend(xs[1..], ys);
      assert head + (ParseIds(xs[1..]) + ParseIds(ys)) == (head + ParseIds(xs[1..])) + ParseIds(ys);
    }
  }

  /** An invalid entry is dropped and a valid one is kept, converted. */
  lemma ParseIdsStep(xs: seq<string>, s: string)
    ensures ParseIds(xs + [s]) == ParseIds(xs) + (if ValidId(s) then [ToOid(s)] else [])
  {
    ParseIdsAppend(xs, [s]);
    assert ParseIds([s]) == (if ValidId(s) then [ToOid(s)] else []) + ParseIds([]);
  }
}
