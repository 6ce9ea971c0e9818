/** String primitives shared by the bot's helpers, with Python's meaning:
    `str.isspace`, `str.strip()`, `str.split(sep)` and `sep.join(parts)`. */
module Text {
  import opened Wrappers

  /** The characters Python's `str.isspace` accepts, hence those `str.strip()`
      removes. */
  predicate IsSpace(c: char) {
    || c == ' ' || c == '\t' || c == '\n' || c == '\r'
    || ('\U{000B}' <= c <= '\U{000C}')
    || ('\U{001C}' <= c <= '\U{001F}')
    || c == '\U{0085}' || c == '\U{00A0}' || c == '\U{1680}'
    || ('\U{2000}' <= c <= '\U{200A}')
    || c == '\U{2028}' || c == '\U{2029}' || c == '\U{202F}'
    || c == '\U{205F}' || c == '\U{3000}'
  }

  /** The line boundaries of Python's `str.splitlines` ("\r\n" is two of them here). */
  predicate IsLineBreak(c: char) {
    || c == '\n' || c == '\r'
    || ('\U{000B}' <= c <= '\U{000C}')
    || ('\U{001C}' <= c <= '\U{001E}')
    || c == '\U{0085}' || c == '\U{2028}' || c == '\U{2029}'
  }

  predicate AllSpace(s: string) {
    forall i :: 0 <= i < |s| ==> IsSpace(s[i])
  }

  /** Neither end of `s` is whitespace: what `strip()` leaves behind. */
  predicate IsStripped(s: string) {
    s == [] || (!IsSpace(s[0]) && !IsSpace(s[|s| - 1]))
  }

  /** Number of leading whitespace characters. */
  function LeadingSpaces(s: string): (n: nat)
    ensures n <= |s|
  {
    if |s| > 0 && IsSpace(s[0]) then 1 + LeadingSpaces(s[1..]) else 0
  }

  /** The leading whitespace is all whitespace and ends at a non-space. */
  lemma {:induction false} LeadingSpacesSpan(s: string)
    ensures var n := LeadingSpaces(s);
            (forall m :: 0 <= m < n ==> IsSpace(s[m])) && (n < |s| ==> !IsSpace(s[n]))
    decreases |s|
  {
    if |s| > 0 && IsSpace(s[0]) {
      LeadingSpacesSpan(s[1..]);
    }
  }

  /** Number of trailing whitespace characters. */
  function TrailingSpaces(s: string): (n: nat)
    ensures n <= |s|
  {
    if |s| > 0 && IsSpace(s[|s| - 1]) then 1 + TrailingSpaces(s[..|s| - 1]) else 0
  }

  /** The trailing whitespace is all whitespace and starts after a non-space. */
  lemma {:induction false} TrailingSpacesSpan(s: string)
    ensures var n := TrailingSpaces(s);
            (forall m :: |s| - n <= m < |s| ==> IsSpace(s[m])) && (n < |s| ==> !IsSpace(s[|s| - n - 1]))
    decreases |s|
  {
    if |s| > 0 && IsSpace(s[|s| - 1]) {
      TrailingSpacesSpan(s[..|s| - 1]);
    }
  }

  /** Python's `s.strip()`: `s` without its whitespace prefix and suffix. The
      result is stripped, and empty exactly for an all-space `s`;
      `StripMiddle` shows it is the middle of `s` between two all-space ends. */
  function Strip(s: string): (r: string)
    ensures IsStripped(r)
    ensures r == [] <==> AllSpace(s)
  {
    var i := LeadingSpaces(s);
    var t := s[i..];
    var k := TrailingSpaces(t);
    StripEnds(s, i, t, k);
    t[..|t| - k]
  }

  /** The middle of `s` between its whitespace prefix and suffix is stripped,
      and empty exactly when `s` is all whitespace. */
  lemma StripEnds(s: string, i: nat, t: string, k: nat)
    requires i == LeadingSpaces(s) && t == s[i..] && k == TrailingSpaces(t)
    ensures IsStripped(t[..|t| - k])
    ensures t[..|t| - k] == [] <==> AllSpace(s)
  {
    LeadingSpacesSpan(s);
    TrailingSpacesSpan(t);
    assert t == [] || t[0] == s[i];
    var r := t[..|t| - k];
    if r != [] {
      assert r[0] == s[i] && !IsSpace(s[i]);
      assert r[|r| - 1] == t[|t| - k - 1];
    }
  }

  /** What `strip()` removes is whitespace at either end: the result is the
      slice of `s` between an all-space prefix and an all-space suffix. */
  lemma StripMiddle(s: string) returns (i: nat, j: nat)
    ensures i <= j <= |s| && Strip(s) == s[i..j] && AllSpace(s[..i]) && AllSpace(s[j..])
    ensures s == s[..i] + Strip(s) + s[j..]
  {
    i := LeadingSpaces(s);
    var t := s[i..];
    var k := TrailingSpaces(t);
    j := |s| - k;
    LeadingAllSpace(s);
    TrailingAllSpace(s, i);
    SuffixSlices(s, i, k);
    Pieces(s, i, j);
  }

  /** The prefix `strip()` removes is whitespace. */
  lemma LeadingAllSpace(s: string)
    ensures AllSpace(s[..LeadingSpaces(s)])
  {
    LeadingSpacesSpan(s);
  }

  /** The suffix `strip()` removes after dropping the first `i` characters is
      whitespace. */
  lemma TrailingAllSpace(s: string, i: nat)
    requires i <= |s|
    ensures AllSpace(s[|s| - TrailingSpaces(s[i..])..])
  {
    var t := s[i..];
    TrailingSpacesSpan(t);
    SuffixSlices(s, i, TrailingSpaces(t));
  }

  /** Three consecutive slices make up the whole. */
  lemma Pieces(s: string, i: nat, j: nat)
    requires i <= j <= |s|
    ensures s == s[..i] + s[i..j] + s[j..]
  {
  }

  /** The middle and the end of `s[i..]` without its last `k` characters, in
      terms of `s`. */
  lemma SuffixSlices(s: string, i: nat, k: nat)
    requires i + k <= |s|
    ensures var t := s[i..]; t[..|t| - k] == s[i..|s| - k] && t[|t| - k..] == s[|s| - k..]
  {
  }

  lemma AllSpaceConcat(a: string, b: string)
    ensures AllSpace(a + b) <==> AllSpace(a) && AllSpace(b)
  {
    assert forall i :: 0 <= i < |a| ==> a[i] == (a + b)[i];
    assert forall i :: 0 <= i < |b| ==> b[i] == (a + b)[|a| + i];
    if AllSpace(a) && AllSpace(b) {
      forall i | 0 <= i < |a + b| ensures IsSpace((a + b)[i]) {
        if i >= |a| { assert (a + b)[i] == b[i - |a|]; }
      }
    }
  }

  lemma {:induction false} LeadingSpacesOf(pre: string, rest: string)
    requires AllSpace(pre)
    requires rest == [] || !IsSpace(rest[0])
    ensures LeadingSpaces(pre + rest) == |pre|
    decreases |pre|
  {
    if pre != [] {
      assert (pre + rest)[1..] == pre[1..] + rest;
      LeadingSpacesOf(pre[1..], rest);
    } else {
      assert pre + rest == rest;
    }
  }

  lemma {:induction false} TrailingSpacesOf(rest: string, post: string)
    requires AllSpace(post)
    requires rest == [] || !IsSpace(rest[|rest| - 1])
    ensures TrailingSpaces(rest + post) == |post|
    decreases |post|
  {
    if post != [] {
      var post' := post[..|post| - 1];
      assert (rest + post)[..|rest + post| - 1] == rest + post';
      TrailingSpacesOf(rest, post');
    } else {
      assert rest + post == rest;
    }
  }

  /** Whitespace around a stripped string is exactly what `strip()` removes. */
  lemma StripSurrounded(pre: string, mid: string, post: string)
    requires AllSpace(pre) && AllSpace(post) && IsStripped(mid)
    ensures Strip(pre + mid + post) == mid
  {
    var s := pre + mid + post;
    if mid == [] {
      AllSpaceConcat(pre, post);
      assert s == pre + post;
    } else {
      assert s == pre + (mid + post);
      LeadingSpacesOf(pre, mid + post);
      assert s[|pre|..] == mid + post;
      TrailingSpacesOf(mid, post);
    }
  }

  /** Stripping twice is stripping once. */
  lemma StripIdempotent(s: string)
    requires IsStripped(s)
    ensures Strip(s) == s
  {
    if s != [] {
      assert LeadingSpaces(s) == 0;
      assert TrailingSpaces(s) == 0;
    }
  }

  /** `sep` occurs in `s` starting at position `i`. */
  predicate OccursAt(s: string, sep: string, i: nat) {
    i + |sep| <= |s| && s[i..i + |sep|] == sep
  }

  /** The first occurrence of `sep` in `s` at or after `from`. */
  function FindFrom(s: string, sep: string, from: nat): (r: Option<nat>)
    requires sep != []
    ensures r.Some? ==> from <= r.value && OccursAt(s, sep, r.value)
    ensures r.Some? ==> forall j :: from <= j < r.value ==> !OccursAt(s, sep, j)
    ensures r.None? ==> forall j :: from <= j ==> !OccursAt(s, sep, j)
    decreases |s| - from
  {
    if from + |sep| > |s| then None
    else if s[from..from + |sep|] == sep then Some(from)
    else FindFrom(s, sep, from + 1)
  }

  /** For a one-character separator, the search finds the first position at or
      after `from` holding that character. */
  lemma {:induction false} FindCharFrom(s: string, c: char, from: nat, i: nat)
    requires from <= i < |s| && s[i] == c
    requires forall j :: from <= j < i ==> s[j] != c
    ensures FindFrom(s, [c], from) == Some(i)
    decreases i - from
  {
    if from < i {
      assert s[from..from + 1] != [c] by { assert s[from..from + 1][0] == s[from]; }
      FindCharFrom(s, c, from + 1, i);
    } else {
      assert s[i..i + 1] == [c];
    }
  }

  /** For a one-character separator absent from `s` at or after `from`, the
      search finds nothing. */
  lemma {:induction false} FindCharNone(s: string, c: char, from: nat)
    requires forall j :: from <= j < |s| ==> s[j] != c
    ensures FindFrom(s, [c], from) == None
    decreases |s| - from
  {
    if from < |s| {
      assert s[from..from + 1] != [c] by { assert s[from..from + 1][0] == s[from]; }
      FindCharNone(s, c, from + 1);
    }
  }

  /** Python's `s.split(sep)`: the pieces between the non-overlapping
      occurrences of `sep`, scanning left to right; never empty. */
  function Split(s: string, sep: string): (parts: seq<string>)
    requires sep != []
    ensures |parts| >= 1
    decreases |s|
  {
    var f := FindFrom(s, sep, 0);
    if f.None? then [s]
    else [s[..f.value]] + Split(s[f.value + |sep|..], sep)
  }

  /** Python's `sep.join(parts)`. */
  function Join(parts: seq<string>, sep: string): string
  {
    if |parts| == 0 then ""
    else if |parts| == 1 then parts[0]
    else parts[0] + sep + Join(parts[1..], sep)
  }

  /** Concatenation of a sequence of strings (`"".join(parts)`). */
  function Concat(parts: seq<string>): string
  {
    if |parts| == 0 then "" else Concat(parts[..|parts| - 1]) + parts[|parts| - 1]
  }

  lemma ConcatSnoc(parts: seq<string>, x: string)
    ensures Concat(parts + [x]) == Concat(parts) + x
  {
    assert (parts + [x])[..|parts|] == parts;
  }

  lemma ConcatAppend(a: seq<string>, b: seq<string>)
    ensures Concat(a + b) == Concat(a) + Concat(b)
    decreases |b|
  {
    if b != [] {
      var b' := b[..|b| - 1];
      var x := b[|b| - 1];
      assert b == b' + [x];
      assert a + b == (a + b') + [x];
      calc {
        Concat(a + b);
        Concat((a + b') + [x]);
        { ConcatSnoc(a + b', x); }
        Concat(a + b') + x;
        { ConcatAppend(a, b'); }
        Concat(a) + Concat(b') + x;
        { ConcatSnoc(b', x); }
        Concat(a) + Concat(b);
      }
    } else {
      assert a + b == a;
    }
  }

  /** Appending a part after a non-empty list adds one separator. */
  lemma JoinSnoc(parts: seq<string>, x: string, sep: string)
    requires |parts| >= 1
    ensures Join(parts + [x], sep) == Join(parts, sep) + sep + x
    decreases |parts|
  {
    if |parts| > 1 {
      assert (parts + [x])[1..] == parts[1..] + [x];
      JoinSnoc(parts[1..], x, sep);
    }
  }

  /** Every part's characters come from the split string. */
  lemma {:induction false} SplitPartsFromInput(s: string, sep: string)
    requires sep != []
    ensures forall k, m :: 0 <= k < |Split(s, sep)| && 0 <= m < |Split(s, sep)[k]| ==>
              Split(s, sep)[k][m] in s
    decreases |s|
  {
    match FindFrom(s, sep, 0)
    case None =>
    case Some(i) =>
      var rest := s[i + |sep|..];
      SplitPartsFromInput(rest, sep);
      var ps := Split(s, sep);
      assert ps == [s[..i]] + Split(rest, sep);
      forall k, m | 0 <= k < |ps| && 0 <= m < |ps[k]| ensures ps[k][m] in s {
        if k == 0 {
          assert ps[k][m] == s[m];
        } else {
          assert ps[k] == Split(rest, sep)[k - 1];
          var c := ps[k][m];
          assert c in rest;
          var n :| 0 <= n < |rest| && rest[n] == c;
          assert s[i + |sep| + n] == c;
        }
      }
  }

  lemma {:induction false} JoinSplit(s: string, sep: string)
    requires sep != []
    ensures Join(Split(s, sep), sep) == s
    decreases |s|
  {
    var f := FindFrom(s, sep, 0);
    if f.Some? {
      var i := f.value;
      var rest := s[i + |sep|..];
      assert Split(s, sep) == [s[..i]] + Split(rest, sep);
      JoinSplit(rest, sep);
      JoinCons(s[..i], Split(rest, sep), sep);
      assert s[i..i + |sep|] == sep;
      assert s == s[..i] + s[i..i + |sep|] + rest;
    }
  }

  lemma JoinCons(x: string, rest: seq<string>, sep: string)
    requires |rest| >= 1
    ensures Join([x] + rest, sep) == x + sep + Join(rest, sep)
  {
    assert ([x] + rest)[1..] == rest;
  }

  /** A one-character separator occurs exactly where its character stands. */
  lemma CharOccurs(s: string, c: char, j: nat)
    requires j < |s|
    ensures OccursAt(s, [c], j) <==> s[j] == c
  {
    assert s[j..j + 1] == [s[j]];
  }

  /** The search for a one-character separator finds its first position, or
      nothing when the character is absent. */
  lemma FindCharFirst(s: string, c: char)
    ensures var f := FindFrom(s, [c], 0);
            f.Some? ==> f.value < |s| && s[f.value] == c && forall j :: 0 <= j < f.value ==> s[j] != c
    ensures FindFrom(s, [c], 0).None? ==> forall j :: 0 <= j < |s| ==> s[j] != c
  {
    var f := FindFrom(s, [c], 0);
    if f.Some? {
      CharOccurs(s, c, f.value);
      forall j | 0 <= j < f.value ensures s[j] != c {
        CharOccurs(s, c, j);
      }
    } else {
      forall j | 0 <= j < |s| ensures s[j] != c {
        CharOccurs(s, c, j);
      }
    }
  }

  /** Splitting on a one-character separator distributes over a string glued
      with that separator: `(a + "," + b).split(",") == a.split(",") + b.split(",")`. */
  lemma {:induction false} SplitCharConcat(a: string, c: char, b: string)
    ensures Split(a + [c] + b, [c]) == Split(a, [c]) + Split(b, [c])
    decreases |a|
  {
    var s := a + [c] + b;
    FindCharFirst(a, c);
    var fa := FindFrom(a, [c], 0);
    var i := if fa.Some? then fa.value else |a|;
    assert forall j :: 0 <= j < i ==> s[j] == a[j];
    FindCharFrom(s, c, 0, i);
    var x := a[..i];
    assert s[..i] == x;
    if fa.None? {
      assert x == a;
      assert s[i + 1..] == b;
    } else {
      var a' := a[i + 1..];
      assert s[i + 1..] == a' + [c] + b;
      SplitCharConcat(a', c, b);
      var p, q := Split(a', [c]), Split(b, [c]);
      assert Split(s, [c]) == [x] + (p + q);
      assert Split(a, [c]) == [x] + p;
      SeqAssoc([x], p, q);
    }
  }

  lemma SeqAssoc<T>(x: seq<T>, y: seq<T>, z: seq<T>)
    ensures x + (y + z) == x + y + z
  {
  }

  /** The pieces of `s` between its line breaks, empty pieces included. Python's
      `s.splitlines()` yields the same pieces except for blank ones (the empty
      piece inside "\r\n" and the one after a final break). */
  function LinePieces(s: string): (ps: seq<string>)
    ensures |ps| >= 1
    ensures forall k, m :: 0 <= k < |ps| && 0 <= m < |ps[k]| ==> !IsLineBreak(ps[k][m])
    decreases |s|
  {
    if s == [] then [""]
    else
      var rest := LinePieces(s[1..]);
      if IsLineBreak(s[0]) then [""] + rest
      else
        var first := [s[0]] + rest[0];
        assert forall m :: 0 < m < |first| ==> first[m] == rest[0][m - 1];
        [first] + rest[1..]
  }

  /** Text joined at a line break splits into the pieces of each side. */
  lemma {:induction false} LinePiecesConcat(a: string, c: char, b: string)
    requires IsLineBreak(c)
    ensures LinePieces(a + [c] + b) == LinePieces(a) + LinePieces(b)
    decreases |a|
  {
    if a == [] {
      assert (a + [c] + b)[1..] == b;
    } else {
      assert (a + [c] + b)[1..] == a[1..] + [c] + b;
      LinePiecesConcat(a[1..], c, b);
    }
  }

  /** Text without line breaks is a single piece. */
  lemma {:induction false} LinePiecesSingle(s: string)
    requires forall m :: 0 <= m < |s| ==> !IsLineBreak(s[m])
    ensures LinePieces(s) == [s]
    decreases |s|
  {
    if s != [] {
      LinePiecesSingle(s[1..]);
      assert [s[0]] + s[1..] == s;
    }
  }

  /** `s` with every `c` removed (`s.replace(c, "")`). */
  function RemoveChar(s: string, c: char): (r: string)
    ensures |r| <= |s|
    ensures forall i :: 0 <= i < |r| ==> r[i] != c
  {
    if s == [] then []
    else
      var rest := RemoveChar(s[..|s| - 1], c);
      if s[|s| - 1] == c then rest else rest + [s[|s| - 1]]
  }

  /** Without a `c` there is nothing to remove. */
  lemma {:induction false} RemoveCharNone(s: string, c: char)
    requires forall i :: 0 <= i < |s| ==> s[i] != c
    ensures RemoveChar(s, c) == s
  {
    if s != [] {
      RemoveCharNone(s[..|s| - 1], c);
    }
  }

  lemma {:induction false} RemoveCharAppend(a: string, b: string, c: char)
    ensures RemoveChar(a + b, c) == RemoveChar(a, c) + RemoveChar(b, c)
    decreases |b|
  {
    if b == [] {
      assert a + b == a;
    } else {
      var b' := b[..|b| - 1];
      assert (a + b)[..|a + b| - 1] == a + b';
      RemoveCharAppend(a, b', c);
    }
  }

  /** The entries of `xs` stripped, with those that strip to nothing dropped:
      the list comprehension `[x.strip() for x in xs if x.strip()]`. */
  function StrippedNonBlank(xs: seq<string>): (ys: seq<string>)
    ensures |ys| <= |xs|
    ensures forall k :: 0 <= k < |ys| ==> ys[k] != [] && IsStripped(ys[k])
  {
    if xs == [] then []
    else
      var rest := StrippedNonBlank(xs[..|xs| - 1]);
      var last := Strip(xs[|xs| - 1]);
      if last == [] then rest else rest + [last]
  }

  /** Filtering distributes over concatenation: order is kept and each entry is
      judged on its own. */
  lemma {:induction false} StrippedNonBlankAppend(a: seq<string>, b: seq<string>)
    ensures StrippedNonBlank(a + b) == StrippedNonBlank(a) + StrippedNonBlank(b)
    decreases |b|
  {
    if b == [] {
      assert a + b == a;
    } else {
      var b' := b[..|b| - 1];
      assert (a + b)[..|a + b| - 1] == a + b';
      StrippedNonBlankAppend(a, b');
    }
  }

  /** One entry contributes its stripped self, or nothing when it is blank. */
  lemma StrippedNonBlankSingle(x: string)
    ensures StrippedNonBlank([x]) == if AllSpace(x) then [] else [Strip(x)]
  {
  }

  /** Already stripped, non-blank entries pass through unchanged. */
  lemma {:induction false} StrippedNonBlankFixpoint(xs: seq<string>)
    requires forall k :: 0 <= k < |xs| ==> xs[k] != [] && IsStripped(xs[k])
    ensures StrippedNonBlank(xs) == xs
  {
    if xs != [] {
      StrippedNonBlankFixpoint(xs[..|xs| - 1]);
      StripIdempotent(xs[|xs| - 1]);
    }
  }

  /** Every non-empty string whose first character is not the separator's
      starts a non-empty first part. */
  lemma SplitFirstPartNonEmpty(s: string, sep: string)
    requires sep != [] && s != [] && s[0] != sep[0]
    ensures Split(s, sep)[0] != []
  {
    var f := FindFrom(s, sep, 0);
    assert !OccursAt(s, sep, 0) by {
      assert |sep| > |s| || s[0..|sep|][0] != sep[0];
    }
  }

  /** A join of two or more parts starts with the first part and its separator
      and ends with the last part behind its separator. */
  lemma {:induction false} JoinHeadTail(parts: seq<string>, sep: string)
    requires |parts| >= 2
    ensures var j := Join(parts, sep); var h := parts[0] + sep;
            |j| >= |h| && j[..|h|] == h
    ensures var j := Join(parts, sep); var t := sep + parts[|parts| - 1];
            |j| >= |t| && j[|j| - |t|..] == t
  {
    var front := parts[..|parts| - 1];
    assert parts == front + [parts[|parts| - 1]];
    JoinSnoc(front, parts[|parts| - 1], sep);
  }
}
