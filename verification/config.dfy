/** The bot's allow-list of administrator ids, read from a comma-separated
    setting (`bot/config.py`). */
module Config {
  import opened Wrappers
  import opened Text
  import opened Ints

  /** The id one comma-separated part contributes: the part trimmed and read by
      `int()`. A blank part and a part `int()` rejects both contribute nothing. */
  function PartId(part: string): Option<int> {
    ParseLiteral(Strip(part))
  }

  /** The values present in a sequence of optional values, gathered in order
      as the loop adds them to its set. */
  function Gather(found: seq<Option<int>>): (ids: set<int>)
    ensures forall x :: x in ids <==> Some(x) in found
  {
    if found == [] then {}
    else
      var front := found[..|found| - 1];
      var last := found[|found| - 1];
      assert found == front + [last];
      Gather(front) + (if last.Some? then {last.value} else {})
  }

  /** What each part contributes, in order. */
  function PartIds(parts: seq<string>): (found: seq<Option<int>>)
    ensures |found| == |parts|
    ensures forall k :: 0 <= k < |parts| ==> found[k] == PartId(parts[k])
  {
    seq(|parts|, k requires 0 <= k < |parts| => PartId(parts[k]))
  }

  /** Some part in `parts` reads as `x`. */
  predicate SomePartReads(parts: seq<string>, x: int) {
    exists k :: 0 <= k < |parts| && PartId(parts[k]) == Some(x)
  }

  /** The ids the parts in `parts` contribute: an id is present exactly when
      some part reads as it. */
  function IdsOf(parts: seq<string>): (ids: set<int>)
    ensures forall x :: x in ids <==> SomePartReads(parts, x)
  {
    var found := PartIds(parts);
    assert forall x :: Some(x) in found <==> exists k :: 0 <= k < |found| && found[k] == Some(x);
    Gather(found)
  }

  /** `_parse_admins(raw)`: exactly the ids of the parts of `raw.split(",")` that
      `int()` accepts once trimmed; nothing raises. */
  function ParseAdmins(raw: string): (ids: set<int>)
    ensures forall x :: x in ids <==> SomePartReads(Split(raw, ","), x)
  {
    IdsOf(Split(raw, ","))
  }

  /** Ids of concatenated part lists are the union of the ids of each. */
  lemma {:induction false} IdsOfAppend(a: seq<string>, b: seq<string>)
    ensures IdsOf(a + b) == IdsOf(a) + IdsOf(b)
  {
    forall x ensures x in IdsOf(a + b) <==> x in IdsOf(a) + IdsOf(b) {
      if x in IdsOf(a + b) {
        var k :| 0 <= k < |a + b| && PartId((a + b)[k]) == Some(x);
        if k < |a| { assert (a + b)[k] == a[k]; }
        else { assert (a + b)[k] == b[k - |a|]; }
      }
      if x in IdsOf(a) {
        var k :| 0 <= k < |a| && PartId(a[k]) == Some(x);
        assert (a + b)[k] == a[k];
      }
      if x in IdsOf(b) {
        var k :| 0 <= k < |b| && PartId(b[k]) == Some(x);
        assert (a + b)[|a| + k] == b[k];
      }
    }
  }

  /** Joining two settings with a comma admits the union of their ids. */
  lemma ParseAdminsJoin(a: string, b: string)
    ensures ParseAdmins(a + "," + b) == ParseAdmins(a) + ParseAdmins(b)
  {
    SplitCharConcat(a, ',', b);
    IdsOfAppend(Split(a, ","), Split(b, ","));
  }

  /** The allow-list does not depend on the order of the parts. */
  lemma ParseAdminsOrderIrrelevant(a: string, b: string)
    ensures ParseAdmins(a + "," + b) == ParseAdmins(b + "," + a)
  {
    ParseAdminsJoin(a, b);
    ParseAdminsJoin(b, a);
  }

  /** Repeating ids adds nothing: duplicates collapse into one entry. */
  lemma ParseAdminsDuplicate(a: string)
    ensures ParseAdmins(a + "," + a) == ParseAdmins(a)
  {
    ParseAdminsJoin(a, a);
  }

  /** An empty or whitespace-only setting admits nobody. */
  lemma ParseAdminsBlank(raw: string)
    requires AllSpace(raw)
    ensures ParseAdmins(raw) == {}
  {
    var parts := Split(raw, ",");
    SplitPartsFromInput(raw, ",");
    forall k | 0 <= k < |parts| ensures Strip(parts[k]) == [] {
      forall m | 0 <= m < |parts[k]| ensures IsSpace(parts[k][m]) {
        var c := parts[k][m];
        assert c in raw;
        var n :| 0 <= n < |raw| && raw[n] == c;
      }
    }
    assert ParseLiteral([]) == None;
    assert forall k :: 0 <= k < |parts| ==> PartId(parts[k]) == None;
    assert forall x :: x !in ParseAdmins(raw);
  }

  /** A setting without commas is a single part. */
  lemma ParseAdminsSinglePart(part: string)
    requires forall i :: 0 <= i < |part| ==> part[i] != ','
    ensures ParseAdmins(part) == (if PartId(part).Some? then {PartId(part).value} else {})
  {
    FindCharNone(part, ',', 0);
    assert Split(part, ",") == [part];
    forall x ensures SomePartReads([part], x) <==> PartId(part) == Some(x) {
      if PartId(part) == Some(x) {
        assert [part][0] == part;
      }
    }
  }

  /** A part is trimmed before `int()` reads it: whitespace around it is ignored. */
  lemma PartIdTrims(pre: string, mid: string, post: string)
    requires AllSpace(pre) && AllSpace(post) && IsStripped(mid)
    ensures PartId(pre + mid + post) == ParseLiteral(mid)
  {
    StripSurrounded(pre, mid, post);
  }

  /** A part that `int()` rejects once trimmed is dropped without affecting
      the rest of the setting. */
  lemma ParseAdminsDropsInvalid(raw: string, bad: string)
    requires forall i :: 0 <= i < |bad| ==> bad[i] != ','
    requires PartId(bad) == None
    ensures ParseAdmins(raw + "," + bad) == ParseAdmins(raw)
  {
    ParseAdminsJoin(raw, bad);
    ParseAdminsSinglePart(bad);
  }
}
