/** Output shaping for the finished report (`bot/utils/formatting.py`): the
    paragraph-packing chunker that keeps each outbound message under a length
    limit, the space-grouped integer format, and the fixed line layout of the
    HTML report. */
module Formatting {
  import opened Wrappers
  import opened Text
  import opened Ints

  /** The paragraph separator `chunk_text` splits on. */
  const PARA: string := "\n\n"

  // ---------------------------------------------------------------------------
  // chunk_text
  // ---------------------------------------------------------------------------

  /** Paragraphs interleaved with the separators in front of them:
      `seps[0] + ps[0] + seps[1] + ps[1] + ...`. */
  function Glue(ps: seq<string>, seps: seq<string>): string
    requires |ps| == |seps|
  {
    if ps == [] then ""
    else Glue(ps[..|ps| - 1], seps[..|seps| - 1]) + seps[|seps| - 1] + ps[|ps| - 1]
  }

  /** Nothing precedes the first paragraph, and every later paragraph is preceded
      by either its original separator or nothing. */
  predicate ValidSeparators(seps: seq<string>) {
    && (|seps| > 0 ==> seps[0] == "")
    && forall k :: 0 <= k < |seps| ==> seps[k] == "" || seps[k] == PARA
  }

  /** `out` is the paragraphs `ps` in order, where only separators may have been
      lost between them. */
  ghost predicate DropsOnlySeparators(ps: seq<string>, out: string) {
    exists seps :: |seps| == |ps| && ValidSeparators(seps) && Glue(ps, seps) == out
  }

  predicate AllEmpty(ps: seq<string>) {
    forall k :: 0 <= k < |ps| ==> ps[k] == ""
  }

  /** `c` is a non-empty proper prefix of `p`. */
  predicate StrictlyInside(c: string, p: string) {
    0 < |c| < |p| && c == p[..|c|]
  }

  /** The piece in front of piece `j`, if there is one. */
  function PieceBefore(chunks: seq<string>, j: nat): Option<string>
    requires j <= |chunks|
  {
    if j == 0 then None else Some(chunks[j - 1])
  }

  /** Paragraph `p` does not fit behind the piece `prev` with a separator in
      between, when there is such a piece. */
  predicate Overflows(prev: Option<string>, p: string, maxLen: int) {
    prev.Some? ==> |prev.value| + |PARA| + |p| > maxLen
  }

  /** A piece may start at `c` (the text before it), right behind the piece
      `prev`, because of paragraph `p`, which follows `before` and the
      separator `sep` kept or lost in front of it. Either the separator was
      lost, `p` did not fit behind `prev`, and the piece starts with `p`; or
      `p` alone is longer than `maxLen` and the piece starts strictly inside
      it. */
  predicate CutAtParagraph(before: string, sep: string, p: string, maxLen: int, c: string, prev: Option<string>) {
    || (sep == "" && c == before && Overflows(prev, p, maxLen))
    || (&& |p| > maxLen
        && |before| + |sep| <= |c|
        && c[..|before| + |sep|] == before + sep
        && StrictlyInside(c[|before| + |sep|..], p))
  }

  /** Piece `j` of `chunks` (or, for `j == |chunks|`, what follows them) may
      start where it does because of paragraph `p`, which follows `before` and
      the separator `sep`. */
  predicate PieceCutAt(before: string, sep: string, p: string, maxLen: int, chunks: seq<string>, j: nat)
    requires j <= |chunks|
  {
    CutAtParagraph(before, sep, p, maxLen, Concat(chunks[..j]), PieceBefore(chunks, j))
  }

  /** The text in front of paragraph `k` once `ps` is glued with `seps`. */
  function ParagraphStart(ps: seq<string>, seps: seq<string>, k: nat): string
    requires |ps| == |seps| && k < |ps|
  {
    Glue(ps[..k], seps[..k]) + seps[k]
  }

  /** A piece may start at `c`, behind the piece `prev`, because of one of the
      paragraphs `ps`. */
  ghost predicate AllowedCut(ps: seq<string>, seps: seq<string>, maxLen: int, c: string, prev: Option<string>)
    requires |ps| == |seps|
  {
    exists k :: 0 <= k < |ps| && CutAtParagraph(Glue(ps[..k], seps[..k]), seps[k], ps[k], maxLen, c, prev)
  }

  /** Piece `j` of `chunks` starts at an allowed cut. */
  ghost predicate StartAllowed(ps: seq<string>, seps: seq<string>, chunks: seq<string>, maxLen: int, j: nat)
    requires |ps| == |seps| && j < |chunks|
  {
    AllowedCut(ps, seps, maxLen, Concat(chunks[..j]), PieceBefore(chunks, j))
  }

  /** Every piece of `chunks` starts at an allowed cut. */
  ghost predicate CutsAllowed(ps: seq<string>, seps: seq<string>, chunks: seq<string>, maxLen: int)
    requires |ps| == |seps|
  {
    forall j :: 0 <= j < |chunks| ==> StartAllowed(ps, seps, chunks, maxLen, j)
  }

  /** `c` is where one of the pieces `chunks` begins, or where the last ends,
      and paragraph `p` did not fit behind the piece that ends there. */
  ghost predicate BoundaryBefore(chunks: seq<string>, c: string, p: string, maxLen: int) {
    exists j :: 0 <= j <= |chunks| && Concat(chunks[..j]) == c && Overflows(PieceBefore(chunks, j), p, maxLen)
  }

  /** Every separator lost between two paragraphs is lost at a piece boundary,
      never inside a piece, and the paragraph behind it did not fit behind the
      piece in front of it. */
  ghost predicate LostAtBoundaries(ps: seq<string>, seps: seq<string>, chunks: seq<string>, maxLen: int)
    requires |ps| == |seps|
  {
    forall k :: 0 < k < |ps| && seps[k] == "" ==> BoundaryBefore(chunks, Glue(ps[..k], seps[..k]), ps[k], maxLen)
  }

  /** The greedy paragraph packing of `chunk_text`: the pieces spell the
      paragraphs in order with only separators lost, a separator is lost only
      at a piece boundary behind a piece that the next paragraph does not fit
      after, and every piece starts either where a separator was
      lost in front of a paragraph that did not fit behind the previous piece,
      or inside a paragraph that is longer than `maxLen` on its own. Text is
      never cut elsewhere. */
  ghost predicate CutsOnParagraphs(ps: seq<string>, chunks: seq<string>, maxLen: int) {
    exists seps ::
      && |seps| == |ps|
      && ValidSeparators(seps)
      && Glue(ps, seps) == Concat(chunks)
      && CutsAllowed(ps, seps, chunks, maxLen)
      && LostAtBoundaries(ps, seps, chunks, maxLen)
  }

  lemma GlueSnoc(ps: seq<string>, seps: seq<string>, p: string, sep: string)
    requires |ps| == |seps|
    ensures Glue(ps + [p], seps + [sep]) == Glue(ps, seps) + sep + p
  {
    assert (ps + [p])[..|ps|] == ps;
    assert (seps + [sep])[..|seps|] == seps;
  }

  /** Keeping every separator reproduces the joined text. */
  lemma {:induction false} GlueAllSeparators(ps: seq<string>, seps: seq<string>)
    requires |ps| == |seps| >= 1
    requires seps[0] == "" && forall k :: 1 <= k < |seps| ==> seps[k] == PARA
    ensures Glue(ps, seps) == Join(ps, PARA)
    decreases |ps|
  {
    if |ps| > 1 {
      var ps', seps' := ps[..|ps| - 1], seps[..|seps| - 1];
      GlueAllSeparators(ps', seps');
      assert ps == ps' + [ps[|ps| - 1]];
      JoinSnoc(ps', ps[|ps| - 1], PARA);
    } else {
      assert Glue(ps, seps) == Glue([], []) + "" + ps[0];
    }
  }

  /** The inner slicing loop of `chunk_text` for a paragraph longer than the
      limit: it emits consecutive slices of exactly `maxLen` characters and keeps
      the remainder, which is non-empty and within the limit. */
  method SliceLong(p: string, maxLen: int) returns (slices: seq<string>, rest: string)
    requires 1 <= maxLen < |p|
    ensures |slices| >= 1
    ensures forall k :: 0 <= k < |slices| ==> |slices[k]| == maxLen
    ensures 1 <= |rest| <= maxLen
    ensures Concat(slices) + rest == p
    ensures forall m :: 0 < m <= |slices| ==> StrictlyInside(Concat(slices[..m]), p)
  {
    slices := [];
    var s := p;
    while |s| > maxLen
      invariant forall k :: 0 <= k < |slices| ==> |slices[k]| == maxLen
      invariant Concat(slices) + s == p
      invariant |s| >= 1
      invariant |slices| >= 1 || s == p
      invariant forall m :: 0 < m <= |slices| ==> StrictlyInside(Concat(slices[..m]), p)
      decreases |s|
    {
      SliceStep(slices, s, maxLen);
      SlicePrefixes(slices, s[..maxLen], s[maxLen..], p);
      slices := slices + [s[..maxLen]];
      s := s[maxLen..];
    }
    rest := s;
  }

  /** Moving a prefix of the remainder onto the list of slices keeps the text
      they spell together. */
  lemma SliceStep(slices: seq<string>, s: string, m: nat)
    requires m <= |s|
    ensures Concat(slices + [s[..m]]) + s[m..] == Concat(slices) + s
  {
    ConcatSnoc(slices, s[..m]);
    assert s[..m] + s[m..] == s;
    SeqAssoc(Concat(slices), s[..m], s[m..]);
  }

  /** A new non-empty slice, followed by a non-empty remainder, keeps every
      run of slices from the start a non-empty proper prefix of the paragraph. */
  lemma SlicePrefixes(slices: seq<string>, x: string, s: string, p: string)
    requires x != [] && s != []
    requires Concat(slices) + x + s == p
    requires forall m :: 0 < m <= |slices| ==> StrictlyInside(Concat(slices[..m]), p)
    ensures forall m :: 0 < m <= |slices| + 1 ==> StrictlyInside(Concat((slices + [x])[..m]), p)
  {
    forall m | 0 < m <= |slices| + 1
      ensures StrictlyInside(Concat((slices + [x])[..m]), p)
    {
      if m <= |slices| {
        assert (slices + [x])[..m] == slices[..m];
      } else {
        assert (slices + [x])[..m] == slices + [x];
        ConcatSnoc(slices, x);
        var c := Concat(slices) + x;
        assert p == c + s;
        assert c == p[..|c|];
      }
    }
  }

  /** One iteration of `chunk_text`'s paragraph loop: paragraph `p` joins the
      buffer (behind a `"\n\n"` when the buffer is non-empty) if it fits;
      otherwise the buffer is emitted and `p` starts the next buffer, cut into
      full slices first when it alone is too long. Text is only appended, the
      separator `sep` in front of `p` is kept exactly when `p` fits behind a
      non-empty buffer and is otherwise lost at a piece boundary, a paragraph
      within the limit emits at most the old buffer, every new piece starts at
      `p`, when `p` did not fit behind the piece before it, or inside a
      too-long `p`, and the buffer stays within the limit. An empty buffer
      after a piece means that piece left no room for a separator. */
  method PackParagraph(chunks: seq<string>, buf: string, p: string, maxLen: int)
    returns (chunks': seq<string>, buf': string, ghost sep: string)
    requires maxLen >= 1 && |buf| <= maxLen
    requires forall k :: 0 <= k < |chunks| ==> 1 <= |chunks[k]| <= maxLen
    requires buf == "" ==> Overflows(PieceBefore(chunks, |chunks|), "", maxLen)
    ensures sep == "" || (sep == PARA && buf != "")
    ensures sep == PARA <==> (buf != "" && |buf| + |PARA| + |p| <= maxLen)
    ensures Concat(chunks') + buf' == Concat(chunks) + buf + sep + p
    ensures |buf'| <= maxLen
    ensures forall k :: 0 <= k < |chunks'| ==> 1 <= |chunks'[k]| <= maxLen
    ensures |chunks'| >= |chunks| && chunks'[..|chunks|] == chunks
    ensures |p| <= maxLen ==> chunks' == chunks || chunks' == chunks + [buf]
    ensures (chunks' == [] && buf' == "") <==> (chunks == [] && buf == "" && p == "")
    ensures buf' == "" ==> Overflows(PieceBefore(chunks', |chunks'|), "", maxLen)
    ensures sep == "" ==> BoundaryBefore(chunks', Concat(chunks) + buf, p, maxLen)
    ensures forall j :: |chunks| < j < |chunks'| ==>
              PieceCutAt(Concat(chunks) + buf, sep, p, maxLen, chunks', j)
    ensures buf' != "" ==>
              || (buf != "" && chunks' == chunks)
              || CutAtParagraph(Concat(chunks) + buf, sep, p, maxLen, Concat(chunks'), PieceBefore(chunks', |chunks'|))
  {
    var add := if buf == "" then p else PARA + p;
    ghost var before := Concat(chunks) + buf;
    if |buf| + |add| <= maxLen {
      chunks' := chunks;
      buf' := buf + add;
      sep := if buf == "" then "" else PARA;
      if buf == "" {
        assert before == Concat(chunks');
        assert chunks'[..|chunks'|] == chunks';
      } else {
        SeqAssoc(buf, PARA, p);
        SeqAssoc(Concat(chunks), buf + PARA, p);
      }
      return;
    }
    sep := "";
    assert before + sep + p == before + p;
    chunks', buf' := Overflow(chunks, buf, p, maxLen);
  }

  /** The branch of `chunk_text`'s loop where paragraph `p` does not fit
      behind the buffer: a non-empty buffer is emitted and `p` starts the next
      buffer, cut into full slices first when it alone is too long. The
      separator in front of `p` is lost where a piece ends, so every new piece,
      and the new buffer, starts at `p`, which did not fit behind the piece
      before it, or strictly inside a too-long `p`. */
  method Overflow(chunks: seq<string>, buf: string, p: string, maxLen: int)
    returns (chunks': seq<string>, buf': string)
    requires maxLen >= 1 && |buf| <= maxLen
    requires forall k :: 0 <= k < |chunks| ==> 1 <= |chunks[k]| <= maxLen
    requires buf != "" ==> |buf| + |PARA| + |p| > maxLen
    requires buf == "" ==> Overflows(PieceBefore(chunks, |chunks|), "", maxLen)
    ensures Concat(chunks') + buf' == Concat(chunks) + buf + p
    ensures |buf'| <= maxLen
    ensures forall k :: 0 <= k < |chunks'| ==> 1 <= |chunks'[k]| <= maxLen
    ensures |chunks'| >= |chunks| && chunks'[..|chunks|] == chunks
    ensures |p| <= maxLen ==> chunks' == chunks || chunks' == chunks + [buf]
    ensures (chunks' == [] && buf' == "") <==> (chunks == [] && buf == "" && p == "")
    ensures buf' == "" ==> Overflows(PieceBefore(chunks', |chunks'|), "", maxLen)
    ensures BoundaryBefore(chunks', Concat(chunks) + buf, p, maxLen)
    ensures forall j :: |chunks| < j <= |chunks'| ==>
              PieceCutAt(Concat(chunks) + buf, "", p, maxLen, chunks', j)
    ensures buf' != "" ==>
              CutAtParagraph(Concat(chunks) + buf, "", p, maxLen, Concat(chunks'), PieceBefore(chunks', |chunks'|))
  {
    ghost var before := Concat(chunks) + buf;
    var emitted := chunks;
    if buf != "" {
      ConcatSnoc(chunks, buf);
      emitted := chunks + [buf];
    }
    assert Concat(emitted) == before;
    assert emitted[..|chunks|] == chunks;
    chunks', buf' := StartParagraph(emitted, p, maxLen);
    assert chunks'[..|chunks|] == emitted[..|chunks|];
    assert chunks'[..|chunks'|] == chunks';
    assert Concat(chunks'[..|emitted|]) == before;
    if buf' != "" {
      assert PieceCutAt(before, "", p, maxLen, chunks', |chunks'|);
    }
  }

  /** Paragraph `p`, which does not fit behind the last of the pieces
      `chunks`, starts the next buffer, cut into full slices first when it
      alone is too long. Every new piece, and the buffer, starts at `p` or
      strictly inside a too-long `p`. */
  method StartParagraph(chunks: seq<string>, p: string, maxLen: int) returns (chunks': seq<string>, buf': string)
    requires maxLen >= 1
    requires forall k :: 0 <= k < |chunks| ==> 1 <= |chunks[k]| <= maxLen
    requires Overflows(PieceBefore(chunks, |chunks|), p, maxLen)
    ensures Concat(chunks') + buf' == Concat(chunks) + p
    ensures |buf'| <= maxLen && (buf' == "" <==> p == "")
    ensures forall k :: 0 <= k < |chunks'| ==> 1 <= |chunks'[k]| <= maxLen
    ensures |chunks'| >= |chunks| && chunks'[..|chunks|] == chunks
    ensures |p| <= maxLen <==> chunks' == chunks
    ensures forall j :: |chunks| <= j <= |chunks'| ==> PieceCutAt(Concat(chunks), "", p, maxLen, chunks', j)
  {
    if |p| <= maxLen {
      chunks', buf' := chunks, p;
      assert chunks[..|chunks|] == chunks;
      assert PieceCutAt(Concat(chunks), "", p, maxLen, chunks, |chunks|);
    } else {
      chunks', buf' := StartLong(chunks, p, maxLen);
    }
  }

  /** Paragraph `p`, too long on its own, starts after the pieces `chunks`: its
      full slices become pieces, and its remainder the buffer. Every new piece,
      and the buffer, starts at `p` or strictly inside it. */
  method StartLong(chunks: seq<string>, p: string, maxLen: int) returns (chunks': seq<string>, rest: string)
    requires 1 <= maxLen < |p|
    requires forall k :: 0 <= k < |chunks| ==> 1 <= |chunks[k]| <= maxLen
    ensures Concat(chunks') + rest == Concat(chunks) + p
    ensures 1 <= |rest| <= maxLen
    ensures forall k :: 0 <= k < |chunks'| ==> 1 <= |chunks'[k]| <= maxLen
    ensures |chunks'| > |chunks| && chunks'[..|chunks|] == chunks
    ensures forall j :: |chunks| <= j <= |chunks'| ==>
              PieceCutAt(Concat(chunks), "", p, maxLen, chunks', j)
  {
    var slices;
    slices, rest := SliceLong(p, maxLen);
    ConcatAppend(chunks, slices);
    SliceCuts(chunks, slices, Concat(chunks), p, maxLen);
    assert (chunks + slices)[..|chunks|] == chunks;
    SeqAssoc(Concat(chunks), Concat(slices), rest);
    chunks' := chunks + slices;
  }

  /** The pieces that end with the slices of a too-long paragraph `p` start
      at `p` or strictly inside it; `p` fits behind no piece. */
  lemma SliceCuts(chunks: seq<string>, slices: seq<string>, before: string, p: string, maxLen: int)
    requires Concat(chunks) == before && |p| > maxLen
    requires forall m :: 0 < m <= |slices| ==> StrictlyInside(Concat(slices[..m]), p)
    ensures forall j :: |chunks| <= j <= |chunks| + |slices| ==>
              PieceCutAt(before, "", p, maxLen, chunks + slices, j)
  {
    assert before + "" == before;
    forall j | |chunks| <= j <= |chunks| + |slices|
      ensures PieceCutAt(before, "", p, maxLen, chunks + slices, j)
    {
      var m := j - |chunks|;
      assert (chunks + slices)[..j] == chunks + slices[..m];
      ConcatAppend(chunks, slices[..m]);
      var c := before + Concat(slices[..m]);
      if m > 0 {
        assert c[..|before|] == before;
        assert c[|before|..] == Concat(slices[..m]);
      } else {
        assert slices[..m] == [];
        assert c == before;
        assert Overflows(PieceBefore(chunks + slices, j), p, maxLen);
      }
    }
  }

  /** What `chunk_text`'s paragraph loop keeps after packing the paragraphs
      `ps`, glued with the separators `seps`, into the pieces `chunks` and the
      buffer `buf`. */
  ghost predicate Packed(ps: seq<string>, seps: seq<string>, chunks: seq<string>, buf: string, maxLen: int) {
    && |seps| == |ps| && ValidSeparators(seps)
    && Concat(chunks) + buf == Glue(ps, seps)
    && |buf| <= maxLen
    && (forall k :: 0 <= k < |chunks| ==> 1 <= |chunks[k]| <= maxLen)
    && ((chunks == [] && buf == "") <==> AllEmpty(ps))
    && (buf == "" ==> Overflows(PieceBefore(chunks, |chunks|), "", maxLen))
    && CutsAllowed(ps, seps, chunks, maxLen)
    && (buf != "" ==> AllowedCut(ps, seps, maxLen, Concat(chunks), PieceBefore(chunks, |chunks|)))
    && LostAtBoundaries(ps, seps, chunks, maxLen)
  }

  /** The paragraph loop of `chunk_text` with its final flush: every piece is
      non-empty and within the limit, the pieces spell the paragraphs with only
      separators lost, a separator is lost only at a piece boundary behind a
      piece the next paragraph does not fit after, a piece starts only where a separator was lost in front of a paragraph that did
      not fit behind the piece before, or inside a too-long paragraph, and
      there are none exactly when every paragraph is empty. */
  method PackParagraphs(paras: seq<string>, maxLen: int) returns (chunks: seq<string>)
    requires maxLen >= 1
    ensures forall k :: 0 <= k < |chunks| ==> 1 <= |chunks[k]| <= maxLen
    ensures DropsOnlySeparators(paras, Concat(chunks))
    ensures CutsOnParagraphs(paras, chunks, maxLen)
    ensures chunks == [] <==> AllEmpty(paras)
  {
    chunks := [];
    var buf := "";
    ghost var seps: seq<string> := [];
    var i := 0;
    assert paras[..0] == [];
    while i < |paras|
      invariant 0 <= i <= |paras|
      invariant Packed(paras[..i], seps, chunks, buf, maxLen)
    {
      chunks, buf, seps := PackNext(paras, i, chunks, buf, maxLen, seps);
      i := i + 1;
    }
    assert paras[..i] == paras;
    if buf != "" {
      ConcatSnoc(chunks, buf);
      CutsSnoc(paras, seps, chunks, buf, maxLen);
      LostSnoc(paras, seps, chunks, buf, maxLen);
      chunks := chunks + [buf];
    }
    assert ValidSeparators(seps) && Glue(paras, seps) == Concat(chunks);
    assert CutsAllowed(paras, seps, chunks, maxLen);
    assert LostAtBoundaries(paras, seps, chunks, maxLen);
  }

  /** One turn of the packing loop: paragraph `i` joins what the loop keeps. */
  method PackNext(paras: seq<string>, i: nat, chunks: seq<string>, buf: string, maxLen: int, ghost seps: seq<string>)
    returns (chunks': seq<string>, buf': string, ghost seps': seq<string>)
    requires maxLen >= 1 && i < |paras|
    requires Packed(paras[..i], seps, chunks, buf, maxLen)
    ensures Packed(paras[..i + 1], seps', chunks', buf', maxLen)
  {
    ghost var sep;
    ghost var before := Concat(chunks) + buf;
    TakeSnoc(paras, i);
    AllEmptyStep(paras, i);
    chunks', buf', sep := PackParagraph(chunks, buf, paras[i], maxLen);
    GlueStep(paras, i, seps, sep, before, Concat(chunks') + buf');
    CutsStep(paras[..i], seps, paras[i], sep, maxLen, chunks, buf, chunks', buf');
    LostStep(paras[..i], seps, paras[i], sep, maxLen, chunks, chunks', before);
    seps' := seps + [sep];
  }

  lemma TakeSnoc<T>(s: seq<T>, i: nat)
    requires i < |s|
    ensures s[..i + 1] == s[..i] + [s[i]]
  {
  }

  /** An allowed cut stays allowed when another paragraph follows. */
  lemma CutExtend(ps: seq<string>, seps: seq<string>, p: string, sep: string, maxLen: int, c: string, prev: Option<string>)
    requires |ps| == |seps| && AllowedCut(ps, seps, maxLen, c, prev)
    ensures AllowedCut(ps + [p], seps + [sep], maxLen, c, prev)
  {
    var k :| 0 <= k < |ps| && CutAtParagraph(Glue(ps[..k], seps[..k]), seps[k], ps[k], maxLen, c, prev);
    assert (ps + [p])[..k] == ps[..k] && (seps + [sep])[..k] == seps[..k];
    assert (ps + [p])[k] == ps[k] && (seps + [sep])[k] == seps[k];
  }

  /** A cut at the new last paragraph is an allowed cut. */
  lemma CutLast(ps: seq<string>, seps: seq<string>, p: string, sep: string, maxLen: int, c: string, prev: Option<string>)
    requires |ps| == |seps| && CutAtParagraph(Glue(ps, seps), sep, p, maxLen, c, prev)
    ensures AllowedCut(ps + [p], seps + [sep], maxLen, c, prev)
  {
    assert (ps + [p])[..|ps|] == ps && (seps + [sep])[..|ps|] == seps;
    assert (ps + [p])[|ps|] == p && (seps + [sep])[|ps|] == sep;
  }

  /** The packing loop's cut invariant survives one more paragraph `p`. */
  lemma CutsStep(ps: seq<string>, seps: seq<string>, p: string, sep: string, maxLen: int,
                 chunks: seq<string>, buf: string, chunks': seq<string>, buf': string)
    requires |ps| == |seps|
    requires Concat(chunks) + buf == Glue(ps, seps)
    requires sep == "" || buf != ""
    requires sep == "" && buf == "" ==> Overflows(PieceBefore(chunks, |chunks|), p, maxLen)
    requires CutsAllowed(ps, seps, chunks, maxLen)
    requires buf != "" ==> AllowedCut(ps, seps, maxLen, Concat(chunks), PieceBefore(chunks, |chunks|))
    requires |chunks'| >= |chunks| && chunks'[..|chunks|] == chunks
    requires forall j :: |chunks| < j < |chunks'| ==>
               PieceCutAt(Concat(chunks) + buf, sep, p, maxLen, chunks', j)
    requires buf' != "" ==>
               || (buf != "" && chunks' == chunks)
               || CutAtParagraph(Concat(chunks) + buf, sep, p, maxLen, Concat(chunks'), PieceBefore(chunks', |chunks'|))
    ensures CutsAllowed(ps + [p], seps + [sep], chunks', maxLen)
    ensures buf' != "" ==> AllowedCut(ps + [p], seps + [sep], maxLen, Concat(chunks'), PieceBefore(chunks', |chunks'|))
  {
    forall j | 0 <= j < |chunks'|
      ensures StartAllowed(ps + [p], seps + [sep], chunks', maxLen, j)
    {
      PieceCut(ps, seps, p, sep, maxLen, chunks, buf, chunks', j);
    }
    if buf' != "" {
      if buf != "" && chunks' == chunks {
        CutExtend(ps, seps, p, sep, maxLen, Concat(chunks), PieceBefore(chunks, |chunks|));
      } else {
        CutLast(ps, seps, p, sep, maxLen, Concat(chunks'), PieceBefore(chunks', |chunks'|));
      }
    }
  }

  /** Piece `j` after one more paragraph `p` starts at an allowed cut: an old
      piece, the old buffer, or a piece that paragraph `p` started. */
  lemma PieceCut(ps: seq<string>, seps: seq<string>, p: string, sep: string, maxLen: int,
                 chunks: seq<string>, buf: string, chunks': seq<string>, j: nat)
    requires |ps| == |seps|
    requires Concat(chunks) + buf == Glue(ps, seps)
    requires sep == "" || buf != ""
    requires sep == "" && buf == "" ==> Overflows(PieceBefore(chunks, |chunks|), p, maxLen)
    requires CutsAllowed(ps, seps, chunks, maxLen)
    requires buf != "" ==> AllowedCut(ps, seps, maxLen, Concat(chunks), PieceBefore(chunks, |chunks|))
    requires |chunks| <= |chunks'| && chunks'[..|chunks|] == chunks && j < |chunks'|
    requires |chunks| < j ==> PieceCutAt(Glue(ps, seps), sep, p, maxLen, chunks', j)
    ensures AllowedCut(ps + [p], seps + [sep], maxLen, Concat(chunks'[..j]), PieceBefore(chunks', j))
  {
    if j <= |chunks| {
      assert chunks'[..j] == chunks[..j];
      assert PieceBefore(chunks', j) == PieceBefore(chunks, j) by {
        if j > 0 {
          assert chunks'[j - 1] == chunks'[..|chunks|][j - 1];
        }
      }
      if j < |chunks| {
        assert StartAllowed(ps, seps, chunks, maxLen, j);
        CutExtend(ps, seps, p, sep, maxLen, Concat(chunks[..j]), PieceBefore(chunks, j));
      } else {
        assert chunks[..j] == chunks;
        BufferStartCut(ps, seps, p, sep, maxLen, chunks, buf);
      }
    } else {
      CutLast(ps, seps, p, sep, maxLen, Concat(chunks'[..j]), PieceBefore(chunks', j));
    }
  }

  /** Where the buffer starts stays an allowed cut after paragraph `p`: it was
      one already, or the buffer is empty, the separator in front of `p` is
      lost, `p` did not fit behind the last piece and starts there. */
  lemma BufferStartCut(ps: seq<string>, seps: seq<string>, p: string, sep: string, maxLen: int,
                       chunks: seq<string>, buf: string)
    requires |ps| == |seps|
    requires Concat(chunks) + buf == Glue(ps, seps)
    requires sep == "" || buf != ""
    requires sep == "" && buf == "" ==> Overflows(PieceBefore(chunks, |chunks|), p, maxLen)
    requires buf != "" ==> AllowedCut(ps, seps, maxLen, Concat(chunks), PieceBefore(chunks, |chunks|))
    ensures AllowedCut(ps + [p], seps + [sep], maxLen, Concat(chunks), PieceBefore(chunks, |chunks|))
  {
    if buf != "" {
      CutExtend(ps, seps, p, sep, maxLen, Concat(chunks), PieceBefore(chunks, |chunks|));
    } else {
      assert Concat(chunks) == Glue(ps, seps);
      CutLast(ps, seps, p, sep, maxLen, Concat(chunks), PieceBefore(chunks, |chunks|));
    }
  }

  /** Flushing a buffer that starts at an allowed cut keeps every cut allowed. */
  lemma CutsSnoc(ps: seq<string>, seps: seq<string>, chunks: seq<string>, buf: string, maxLen: int)
    requires |ps| == |seps|
    requires CutsAllowed(ps, seps, chunks, maxLen)
    requires AllowedCut(ps, seps, maxLen, Concat(chunks), PieceBefore(chunks, |chunks|))
    ensures CutsAllowed(ps, seps, chunks + [buf], maxLen)
  {
    forall j | 0 <= j < |chunks| + 1
      ensures StartAllowed(ps, seps, chunks + [buf], maxLen, j)
    {
      assert PieceBefore(chunks + [buf], j) == PieceBefore(chunks, j);
      if j < |chunks| {
        assert StartAllowed(ps, seps, chunks, maxLen, j);
        assert (chunks + [buf])[..j] == chunks[..j];
      } else {
        assert (chunks + [buf])[..j] == chunks;
      }
    }
  }

  /** A piece boundary stays one when more pieces follow. */
  lemma BoundaryExtend(chunks: seq<string>, more: seq<string>, c: string, p: string, maxLen: int)
    requires BoundaryBefore(chunks, c, p, maxLen)
    ensures BoundaryBefore(chunks + more, c, p, maxLen)
  {
    var j :| 0 <= j <= |chunks| && Concat(chunks[..j]) == c && Overflows(PieceBefore(chunks, j), p, maxLen);
    assert (chunks + more)[..j] == chunks[..j];
    assert PieceBefore(chunks + more, j) == PieceBefore(chunks, j);
  }

  /** The packing loop's invariant that separators are lost only at piece
      boundaries survives one more paragraph `p`. */
  lemma LostStep(ps: seq<string>, seps: seq<string>, p: string, sep: string, maxLen: int,
                 chunks: seq<string>, chunks': seq<string>, before: string)
    requires |ps| == |seps| && LostAtBoundaries(ps, seps, chunks, maxLen)
    requires before == Glue(ps, seps)
    requires |chunks'| >= |chunks| && chunks'[..|chunks|] == chunks
    requires sep == "" ==> BoundaryBefore(chunks', before, p, maxLen)
    ensures LostAtBoundaries(ps + [p], seps + [sep], chunks', maxLen)
  {
    assert chunks' == chunks + chunks'[|chunks|..];
    forall k | 0 < k < |ps| + 1 && (seps + [sep])[k] == ""
      ensures BoundaryBefore(chunks', Glue((ps + [p])[..k], (seps + [sep])[..k]), (ps + [p])[k], maxLen)
    {
      if k < |ps| {
        assert (ps + [p])[..k] == ps[..k] && (seps + [sep])[..k] == seps[..k] && (ps + [p])[k] == ps[k];
        BoundaryExtend(chunks, chunks'[|chunks|..], Glue(ps[..k], seps[..k]), ps[k], maxLen);
      } else {
        assert (ps + [p])[..k] == ps && (seps + [sep])[..k] == seps;
      }
    }
  }

  /** Flushing the buffer keeps every lost separator at a piece boundary. */
  lemma LostSnoc(ps: seq<string>, seps: seq<string>, chunks: seq<string>, buf: string, maxLen: int)
    requires |ps| == |seps| && LostAtBoundaries(ps, seps, chunks, maxLen)
    ensures LostAtBoundaries(ps, seps, chunks + [buf], maxLen)
  {
    forall k | 0 < k < |ps| && seps[k] == ""
      ensures BoundaryBefore(chunks + [buf], Glue(ps[..k], seps[..k]), ps[k], maxLen)
    {
      BoundaryExtend(chunks, [buf], Glue(ps[..k], seps[..k]), ps[k], maxLen);
    }
  }

  /** The greedy rule at a lost separator: when piece `j - 1` ends right where
      the separator in front of paragraph `k` was lost, that paragraph did not
      fit behind the piece. Pieces are non-empty, so the boundary that
      `LostAtBoundaries` names is this one. */
  lemma LostSeparatorOverflows(ps: seq<string>, seps: seq<string>, chunks: seq<string>, maxLen: int, k: nat, j: nat)
    requires |ps| == |seps| && LostAtBoundaries(ps, seps, chunks, maxLen)
    requires forall m :: 0 <= m < |chunks| ==> chunks[m] != ""
    requires 0 < k < |ps| && seps[k] == ""
    requires 0 < j <= |chunks| && Concat(chunks[..j]) == Glue(ps[..k], seps[..k])
    ensures |chunks[j - 1]| + |PARA| + |ps[k]| > maxLen
  {
    var c := Glue(ps[..k], seps[..k]);
    assert BoundaryBefore(chunks, c, ps[k], maxLen);
    var j' :| 0 <= j' <= |chunks| && Concat(chunks[..j']) == c && Overflows(PieceBefore(chunks, j'), ps[k], maxLen);
    if j' < j {
      ConcatPrefixGrows(chunks, j', j);
    } else if j < j' {
      ConcatPrefixGrows(chunks, j, j');
    }
  }

  /** Packing is greedy: `"aaa\n\nbbb\n\nccc"` with a limit of 8 is not
      cut into one piece per paragraph, because `"bbb"` still fits behind
      `"aaa"`. */
  lemma OnePiecePerParagraphRejected()
    ensures !CutsOnParagraphs(["aaa", "bbb", "ccc"], ["aaa", "bbb", "ccc"], 8)
  {
    var ps := ["aaa", "bbb", "ccc"];
    assert ps[..1] == ["aaa"] && ps[..2] == ["aaa", "bbb"] && ps[..3] == ps;
    assert Concat(ps[..1]) == "aaa" by {
      assert ps[..1][..0] == [];
    }
    forall j | 0 <= j <= |ps|
      ensures Concat(ps[..j]) == "aaa" ==> j == 1
    {
      if j < 1 {
        ConcatPrefixGrows(ps, j, 1);
      } else if j > 1 {
        ConcatPrefixGrows(ps, 1, j);
      }
    }
    assert !Overflows(PieceBefore(ps, 1), "bbb", 8);
    assert !BoundaryBefore(ps, "aaa", "bbb", 8);
    forall seps | |seps| == |ps| && ValidSeparators(seps) && Glue(ps, seps) == Concat(ps)
      ensures !LostAtBoundaries(ps, seps, ps, 8)
    {
      assert Glue(ps[..1], seps[..1]) == "aaa" by {
        assert ps[..1][..0] == [] && seps[..1][..0] == [];
      }
      assert Glue(ps[..2], seps[..2]) == "aaa" + seps[1] + "bbb" by {
        assert ps[..2][..1] == ps[..1] && seps[..2][..1] == seps[..1];
      }
      assert seps[..3] == seps;
      assert Glue(ps, seps) == "aaa" + seps[1] + "bbb" + seps[2] + "ccc";
      assert Concat(ps[..2]) == "aaa" + "bbb" by {
        assert ps[..2][..1] == ps[..1];
      }
      assert Concat(ps) == "aaa" + "bbb" + "ccc";
      assert seps[1] == "";
      assert !BoundaryBefore(ps, Glue(ps[..1], seps[..1]), ps[1], 8);
    }
  }

  /** A longer run of non-empty pieces spells a longer text. */
  lemma {:induction false} ConcatPrefixGrows(chunks: seq<string>, a: nat, b: nat)
    requires a < b <= |chunks|
    requires forall m :: 0 <= m < |chunks| ==> chunks[m] != ""
    ensures |Concat(chunks[..a])| < |Concat(chunks[..b])|
    decreases b - a
  {
    assert chunks[..a + 1] == chunks[..a] + [chunks[a]];
    ConcatSnoc(chunks[..a], chunks[a]);
    if a + 1 < b {
      ConcatPrefixGrows(chunks, a + 1, b);
    }
  }

  /** The packing loop's text invariant survives one more paragraph with the
      separator the step kept or lost. */
  lemma GlueStep(paras: seq<string>, i: nat, seps: seq<string>, sep: string, before: string, after: string)
    requires i < |paras| && |seps| == i && ValidSeparators(seps)
    requires before == Glue(paras[..i], seps)
    requires sep == "" || (sep == PARA && i > 0)
    requires after == before + sep + paras[i]
    ensures ValidSeparators(seps + [sep])
    ensures after == Glue(paras[..i + 1], seps + [sep])
  {
    assert paras[..i + 1] == paras[..i] + [paras[i]];
    GlueSnoc(paras[..i], seps, paras[i], sep);
  }

  /** The first `i + 1` paragraphs are all empty exactly when the first `i`
      are and paragraph `i` is. */
  lemma AllEmptyStep(paras: seq<string>, i: nat)
    requires i < |paras|
    ensures AllEmpty(paras[..i + 1]) <==> AllEmpty(paras[..i]) && paras[i] == ""
  {
    assert paras[..i + 1] == paras[..i] + [paras[i]];
  }

  /** Gluing one more paragraph appends its separator and its text. */
  lemma GlueTake(ps: seq<string>, seps: seq<string>, k: nat)
    requires |ps| == |seps| && k < |ps|
    ensures Glue(ps[..k + 1], seps[..k + 1]) == ParagraphStart(ps, seps, k) + ps[k]
  {
    assert ps[..k + 1][..k] == ps[..k];
    assert seps[..k + 1][..k] == seps[..k];
  }

  /** The glued text in front of a later paragraph is at least as long. */
  lemma {:induction false} GlueTakeGrows(ps: seq<string>, seps: seq<string>, a: nat, b: nat)
    requires |ps| == |seps| && a <= b <= |ps|
    ensures |Glue(ps[..a], seps[..a])| <= |Glue(ps[..b], seps[..b])|
    decreases b - a
  {
    if a < b {
      GlueTake(ps, seps, a);
      GlueTakeGrows(ps, seps, a + 1, b);
    }
  }

  /** No piece starts strictly inside a paragraph within the limit, so such a
      paragraph lies whole inside one piece: the start of piece `j`, measured in
      the glued text, is at or before paragraph `k`, or at or after its end. */
  lemma ShortParagraphUncut(ps: seq<string>, seps: seq<string>, chunks: seq<string>, maxLen: int, k: nat, j: nat)
    requires |ps| == |seps| && CutsAllowed(ps, seps, chunks, maxLen)
    requires k < |ps| && |ps[k]| <= maxLen && j < |chunks|
    ensures var c, start := Concat(chunks[..j]), |ParagraphStart(ps, seps, k)|;
              |c| <= start || start + |ps[k]| <= |c|
  {
    var c := Concat(chunks[..j]);
    assert StartAllowed(ps, seps, chunks, maxLen, j);
    var k' :| 0 <= k' < |ps| && CutAtParagraph(Glue(ps[..k'], seps[..k']), seps[k'], ps[k'], maxLen, c, PieceBefore(chunks, j));
    if k' < k {
      GlueTake(ps, seps, k');
      GlueTakeGrows(ps, seps, k' + 1, k);
    } else if k < k' {
      GlueTake(ps, seps, k);
      GlueTakeGrows(ps, seps, k + 1, k');
    }
  }

  /** `chunk_text(text, max_len)`: pieces of at most `maxLen` characters,
      packing `"\n\n"`-separated paragraphs greedily and cutting paragraphs that
      are too long on their own. A text within the limit comes back whole;
      otherwise no piece is empty, the pieces in order spell the paragraphs in
      order with only separators lost, a separator is lost only where one
      piece ends and the next begins, a piece starts only where a separator
      was lost in front of a paragraph that did not fit behind the piece
      before, or inside a paragraph longer than the limit, and there is no
      piece at all exactly when every paragraph is empty. */
  method ChunkText(text: string, maxLen: int) returns (chunks: seq<string>)
    requires maxLen >= 1
    ensures |text| <= maxLen ==> chunks == [text]
    ensures forall k :: 0 <= k < |chunks| ==> |chunks[k]| <= maxLen
    ensures |text| > maxLen ==> forall k :: 0 <= k < |chunks| ==> chunks[k] != ""
    ensures DropsOnlySeparators(Split(text, PARA), Concat(chunks))
    ensures CutsOnParagraphs(Split(text, PARA), chunks, maxLen)
    ensures chunks == [] <==> |text| > maxLen && AllEmpty(Split(text, PARA))
  {
    var paras := Split(text, PARA);
    if |text| <= maxLen {
      chunks := [text];
      var seps := seq(|paras|, k => if k == 0 then "" else PARA);
      GlueAllSeparators(paras, seps);
      JoinSplit(text, PARA);
      assert Concat(chunks) == Concat([]) + text;
      assert ValidSeparators(seps) && Glue(paras, seps) == Concat(chunks);
      WholeTextCut(paras, seps, text, maxLen);
    } else {
      chunks := PackParagraphs(paras, maxLen);
    }
  }

  /** A single piece starts at the beginning, in front of the first
      paragraph, where there is no separator to keep. */
  lemma WholeTextCut(ps: seq<string>, seps: seq<string>, text: string, maxLen: int)
    requires |ps| == |seps| >= 1 && seps[0] == ""
    ensures CutsAllowed(ps, seps, [text], maxLen)
  {
    assert [text][..0] == [];
    assert ps[..0] == [] && seps[..0] == [];
    assert CutAtParagraph(Glue(ps[..0], seps[..0]), seps[0], ps[0], maxLen, Concat([text][..0]), PieceBefore([text], 0));
  }

  // ---------------------------------------------------------------------------
  // fmt_int
  // ---------------------------------------------------------------------------

  /** A digit string with a space before every group of three digits counted
      from the right. */
  function Group(ds: string): (r: string)
    requires |ds| >= 1
    decreases |ds|
  {
    if |ds| <= 3 then ds
    else Group(ds[..|ds| - 3]) + " " + ds[|ds| - 3..]
  }

  /** Grouping only inserts spaces: removing them gives the digits back. */
  lemma {:induction false} GroupRemoveSpaces(ds: string)
    requires |ds| >= 1 && AllDigits(ds)
    ensures RemoveChar(Group(ds), ' ') == ds
    decreases |ds|
  {
    if |ds| <= 3 {
      RemoveCharNone(ds, ' ');
    } else {
      var front, tail := ds[..|ds| - 3], ds[|ds| - 3..];
      var g := Group(front);
      GroupRemoveSpaces(front);
      RemoveCharAppend(g + " ", tail, ' ');
      RemoveCharAppend(g, " ", ' ');
      assert RemoveChar(" ", ' ') == [];
      RemoveCharNone(tail, ' ');
      assert front + tail == ds;
    }
  }

  /** In a grouped digit string the spaces sit exactly at every fourth position
      counted from the right end. */
  lemma {:induction false} GroupSpacing(ds: string)
    requires |ds| >= 1 && AllDigits(ds)
    ensures forall i :: 0 <= i < |Group(ds)| ==> (Group(ds)[i] == ' ' <==> (|Group(ds)| - i) % 4 == 0)
    decreases |ds|
  {
    if |ds| > 3 {
      var front, tail := ds[..|ds| - 3], ds[|ds| - 3..];
      var g := Group(front);
      var r := g + " " + tail;
      assert Group(ds) == r;
      GroupSpacing(front);
      assert IsDigit(ds[|ds| - 3]) && IsDigit(ds[|ds| - 2]) && IsDigit(ds[|ds| - 1]);
      forall i | 0 <= i < |r| ensures r[i] == ' ' <==> (|r| - i) % 4 == 0 {
        SpacingStep(g, tail, i);
      }
    }
  }

  /** One more group of three digits behind a space keeps the spaces at every
      fourth position from the right. */
  lemma SpacingStep(g: string, tail: string, i: nat)
    requires |tail| == 3 && IsDigit(tail[0]) && IsDigit(tail[1]) && IsDigit(tail[2])
    requires forall j :: 0 <= j < |g| ==> (g[j] == ' ' <==> (|g| - j) % 4 == 0)
    requires i < |g| + 4
    ensures var r := g + " " + tail; r[i] == ' ' <==> (|r| - i) % 4 == 0
  {
    var r := g + " " + tail;
    if i < |g| {
      assert r[i] == g[i];
      ModFourShift(|g| - i);
    } else if i > |g| {
      assert r[i] == tail[i - |g| - 1];
    }
  }

  lemma ModFourShift(x: int)
    ensures (x + 4) % 4 == 0 <==> x % 4 == 0
  {
  }

  /** `fmt_int(n)`: `f"{n:,}"` with the commas replaced by spaces. */
  function FmtInt(n: int): string {
    if n < 0 then "-" + Group(Decimal(-n)) else Group(Decimal(n))
  }

  /** Removing the spaces from `fmt_int(n)` gives Python's plain `str(n)`. */
  lemma FmtIntRemoveSpaces(n: int)
    ensures RemoveChar(FmtInt(n), ' ') == IntToString(n)
  {
    if n < 0 {
      GroupRemoveSpaces(Decimal(-n));
      RemoveCharAppend("-", Group(Decimal(-n)), ' ');
      assert RemoveChar("-", ' ') == "-";
    } else {
      GroupRemoveSpaces(Decimal(n));
    }
  }

  /** Digits with a space at every fourth position from the right and nowhere
      else, starting with a digit. */
  predicate GroupedDigits(body: string) {
    && |body| >= 1
    && IsDigit(body[0])
    && (forall i :: 0 <= i < |body| ==> (body[i] == ' ' <==> (|body| - i) % 4 == 0))
    && (forall i :: 0 <= i < |body| ==> body[i] == ' ' || IsDigit(body[i]))
  }

  lemma GroupShape(ds: string)
    requires |ds| >= 1 && AllDigits(ds)
    ensures GroupedDigits(Group(ds))
  {
    GroupSpacing(ds);
    GroupChars(ds);
    GroupHeadDigit(ds);
  }

  /** `fmt_int(n)` is a minus sign exactly for negative `n`, followed by
      grouped digits. */
  lemma FmtIntShape(n: int)
    ensures var r := FmtInt(n); var body := if n < 0 then r[1..] else r;
            && (n < 0 <==> (|r| >= 1 && r[0] == '-'))
            && GroupedDigits(body)
  {
    var ds := Decimal(if n < 0 then -n else n);
    GroupShape(ds);
    var r := FmtInt(n);
    if n < 0 {
      assert r[1..] == Group(ds);
    } else {
      assert r == Group(ds);
    }
  }

  /** A grouped digit string starts with its first digit. */
  lemma {:induction false} GroupHeadDigit(ds: string)
    requires |ds| >= 1 && AllDigits(ds)
    ensures Group(ds)[0] == ds[0]
    decreases |ds|
  {
    if |ds| > 3 {
      GroupHeadDigit(ds[..|ds| - 3]);
    }
  }

  lemma {:induction false} GroupChars(ds: string)
    requires |ds| >= 1 && AllDigits(ds)
    ensures forall i :: 0 <= i < |Group(ds)| ==> Group(ds)[i] == ' ' || IsDigit(Group(ds)[i])
    decreases |ds|
  {
    if |ds| > 3 {
      var front, tail := ds[..|ds| - 3], ds[|ds| - 3..];
      GroupChars(front);
      var g := Group(front);
      var r := g + " " + tail;
      assert Group(ds) == r;
      assert forall j :: 0 <= j < |tail| ==> IsDigit(tail[j]);
      forall i | 0 <= i < |r| ensures r[i] == ' ' || IsDigit(r[i]) {
        if i < |g| { assert r[i] == g[i]; }
        else if i > |g| { assert r[i] == tail[i - |g| - 1]; }
      }
    }
  }

  // ---------------------------------------------------------------------------
  // format_report_html
  // ---------------------------------------------------------------------------

  /** The arguments of `format_report_html`. `growthPct` is the already
      rendered text of the float the caller passes. */
  datatype ReportFields = ReportFields(
    title: string,
    period: string,
    postsLinks: seq<string>,
    planned: int,
    actual: int,
    organic: int,
    total: int,
    mediaplan: string,
    screenshotsFolderUrl: Option<string>,
    growthPct: string,
    organicLinks: seq<string>)

  /** The kinds of line the report is made of, each with the data it shows. */
  datatype Line =
    | TitleLine(title: string)
    | PeriodLine(period: string)
    | Blank
    | PostsHeader
    | PostBullet(link: string)
    | PlannedLine(planned: int)
    | ActualLine(actual: int, growthPct: string)
    | ScreenshotsLine(url: string)
    | MediaplanLine(mediaplan: string)
    | OrganicHeader
    | OrganicBullet(link: string)
    | OrganicReachLine(organic: int)
    | Disclaimer
    | TotalLine(total: int)

  /** The text of each line, as the f-strings write it. */
  function Render(line: Line): string {
    match line
    case TitleLine(t) => "<b>" + t + "</b>"
    case PeriodLine(p) => "<i>Период: " + p + "</i>"
    case Blank => ""
    case PostsHeader => "<b>Ссылки на вышедшие публикации:</b>"
    case PostBullet(l) => "• " + l
    case PlannedLine(n) => "<b>Планируемый охват:</b> " + FmtInt(n)
    case ActualLine(n, g) => "<b>Фактический охват:</b> " + FmtInt(n) + " (на " + g + "% выше плана)"
    case ScreenshotsLine(u) => "<b>Скрины:</b> " + u
    case MediaplanLine(m) => "<b>МП:</b> " + m
    case OrganicHeader => "Также по проекту есть органика. Ссылки на посты, вышедшие органически:"
    case OrganicBullet(l) => "• " + l
    case OrganicReachLine(n) => "На данный момент суммарный органический охват: " + FmtInt(n) + " просмотров."
    case Disclaimer => "Обращаем внимание, что часть постов вышла совсем недавно. Ожидаем рост показателя."
    case TotalLine(n) => "<b>Итого охват на текущий момент – " + FmtInt(n) + " просмотров</b>"
  }

  /** One bullet per post link that is non-blank once stripped, in input order. */
  function PostBullets(links: seq<string>): seq<Line> {
    var kept := StrippedNonBlank(links);
    seq(|kept|, k requires 0 <= k < |kept| => PostBullet(kept[k]))
  }

  /** One bullet per organic link, verbatim. */
  function OrganicBullets(links: seq<string>): seq<Line> {
    seq(|links|, k requires 0 <= k < |links| => OrganicBullet(links[k]))
  }

  /** Python truthiness of the optional screenshots-folder URL. */
  predicate HasFolderUrl(url: Option<string>) {
    url.Some? && url.value != ""
  }

  /** The title, the optional period and the posts heading. */
  function HeadLines(f: ReportFields): seq<Line> {
    [TitleLine(f.title)]
    + (if f.period != "" then [PeriodLine(f.period)] else [])
    + [Blank, PostsHeader]
  }

  /** The planned and actual reach, the optional screenshots link and the mediaplan. */
  function ResultLines(f: ReportFields): seq<Line> {
    [Blank, PlannedLine(f.planned), ActualLine(f.actual, f.growthPct)]
    + (if HasFolderUrl(f.screenshotsFolderUrl) then [ScreenshotsLine(f.screenshotsFolderUrl.value)] else [])
    + [MediaplanLine(f.mediaplan), Blank]
  }

  /** The organic block, present only when there are organic links. */
  function OrganicLines(links: seq<string>): seq<Line> {
    if links != [] then [OrganicHeader] + OrganicBullets(links) else []
  }

  /** The organic-reach sentence, the disclaimer and the total. */
  function ClosingLines(f: ReportFields): seq<Line> {
    [OrganicReachLine(f.organic), Disclaimer, Blank, TotalLine(f.total)]
  }

  /** The lines `format_report_html` appends, in order. */
  function ReportLines(f: ReportFields): seq<Line> {
    HeadLines(f) + PostBullets(f.postsLinks) + ResultLines(f) + OrganicLines(f.organicLinks) + ClosingLines(f)
  }

  /** The links of the post bullets among `lines`, in order. */
  function PostBulletLinks(lines: seq<Line>): seq<string> {
    if lines == [] then []
    else
      var rest := PostBulletLinks(lines[..|lines| - 1]);
      var last := lines[|lines| - 1];
      if last.PostBullet? then rest + [last.link] else rest
  }

  /** The links of the organic bullets among `lines`, in order. */
  function OrganicBulletLinks(lines: seq<Line>): seq<string> {
    if lines == [] then []
    else
      var rest := OrganicBulletLinks(lines[..|lines| - 1]);
      var last := lines[|lines| - 1];
      if last.OrganicBullet? then rest + [last.link] else rest
  }

  /** `format_report_html(...)`: the lines rendered and joined with `"\n"`. It
      opens with the bold title and closes with the bold total. */
  function FormatReportHtml(f: ReportFields): string {
    Join(RenderAll(ReportLines(f)), "\n")
  }

  function RenderAll(lines: seq<Line>): (texts: seq<string>)
    ensures |texts| == |lines|
    ensures forall k :: 0 <= k < |lines| ==> texts[k] == Render(lines[k])
  {
    seq(|lines|, k requires 0 <= k < |lines| => Render(lines[k]))
  }

  /** The report opens with the bold title on its own line and closes with the
      bold total on its own line. */
  lemma ReportHtmlEnds(f: ReportFields)
    ensures var html := FormatReportHtml(f); var head := "<b>" + f.title + "</b>\n";
            |html| >= |head| && html[..|head|] == head
    ensures var html := FormatReportHtml(f); var tail := "\n" + Render(TotalLine(f.total));
            |html| >= |tail| && html[|html| - |tail|..] == tail
  {
    var lines := ReportLines(f);
    var texts := RenderAll(lines);
    assert lines[0] == TitleLine(f.title);
    assert lines[|lines| - 1] == TotalLine(f.total);
    JoinHeadTail(texts, "\n");
  }

  lemma {:induction false} PostBulletLinksAppend(a: seq<Line>, b: seq<Line>)
    ensures PostBulletLinks(a + b) == PostBulletLinks(a) + PostBulletLinks(b)
    decreases |b|
  {
    if b == [] {
      assert a + b == a;
    } else {
      assert (a + b)[..|a + b| - 1] == a + b[..|b| - 1];
      PostBulletLinksAppend(a, b[..|b| - 1]);
    }
  }

  lemma {:induction false} OrganicBulletLinksAppend(a: seq<Line>, b: seq<Line>)
    ensures OrganicBulletLinks(a + b) == OrganicBulletLinks(a) + OrganicBulletLinks(b)
    decreases |b|
  {
    if b == [] {
      assert a + b == a;
    } else {
      assert (a + b)[..|a + b| - 1] == a + b[..|b| - 1];
      OrganicBulletLinksAppend(a, b[..|b| - 1]);
    }
  }

  lemma {:induction false} PostBulletLinksOfBullets(xs: seq<string>)
    ensures PostBulletLinks(seq(|xs|, k requires 0 <= k < |xs| => PostBullet(xs[k]))) == xs
    ensures OrganicBulletLinks(seq(|xs|, k requires 0 <= k < |xs| => PostBullet(xs[k]))) == []
    decreases |xs|
  {
    var ls := seq(|xs|, k requires 0 <= k < |xs| => PostBullet(xs[k]));
    if xs != [] {
      var xs' := xs[..|xs| - 1];
      PostBulletLinksOfBullets(xs');
      assert ls[..|ls| - 1] == seq(|xs'|, k requires 0 <= k < |xs'| => PostBullet(xs'[k]));
    }
  }

  lemma {:induction false} OrganicBulletLinksOfBullets(xs: seq<string>)
    ensures OrganicBulletLinks(OrganicBullets(xs)) == xs
    ensures PostBulletLinks(OrganicBullets(xs)) == []
    decreases |xs|
  {
    var ls := OrganicBullets(xs);
    if xs != [] {
      var xs' := xs[..|xs| - 1];
      OrganicBulletLinksOfBullets(xs');
      assert ls[..|ls| - 1] == OrganicBullets(xs');
    }
  }

  lemma FixedSectionsHaveNoBullets(f: ReportFields)
    ensures PostBulletLinks(HeadLines(f)) == [] && OrganicBulletLinks(HeadLines(f)) == []
    ensures PostBulletLinks(ResultLines(f)) == [] && OrganicBulletLinks(ResultLines(f)) == []
    ensures PostBulletLinks(ClosingLines(f)) == [] && OrganicBulletLinks(ClosingLines(f)) == []
  {
    NoBullets(HeadLines(f));
    NoBullets(ResultLines(f));
    NoBullets(ClosingLines(f));
  }

  lemma {:induction false} NoBullets(ls: seq<Line>)
    requires forall k :: 0 <= k < |ls| ==> !ls[k].PostBullet? && !ls[k].OrganicBullet?
    ensures PostBulletLinks(ls) == [] && OrganicBulletLinks(ls) == []
    decreases |ls|
  {
    if ls != [] {
      NoBullets(ls[..|ls| - 1]);
    }
  }

  lemma OrganicLinesBullets(links: seq<string>)
    ensures PostBulletLinks(OrganicLines(links)) == []
    ensures OrganicBulletLinks(OrganicLines(links)) == links
  {
    if links != [] {
      OrganicBulletLinksOfBullets(links);
      OrganicBulletLinksAppend([OrganicHeader], OrganicBullets(links));
      PostBulletLinksAppend([OrganicHeader], OrganicBullets(links));
      NoBullets([OrganicHeader]);
    } else {
      NoBullets([]);
    }
  }

  /** Link extraction over the five sections of a report. */
  lemma BulletLinksOfSections(h: seq<Line>, p: seq<Line>, r: seq<Line>, o: seq<Line>, c: seq<Line>)
    ensures PostBulletLinks(h + p + r + o + c)
      == PostBulletLinks(h) + PostBulletLinks(p) + PostBulletLinks(r) + PostBulletLinks(o) + PostBulletLinks(c)
    ensures OrganicBulletLinks(h + p + r + o + c)
      == OrganicBulletLinks(h) + OrganicBulletLinks(p) + OrganicBulletLinks(r) + OrganicBulletLinks(o) + OrganicBulletLinks(c)
  {
    PostBulletLinksAppend(h + p + r + o, c);
    PostBulletLinksAppend(h + p + r, o);
    PostBulletLinksAppend(h + p, r);
    PostBulletLinksAppend(h, p);
    OrganicBulletLinksAppend(h + p + r + o, c);
    OrganicBulletLinksAppend(h + p + r, o);
    OrganicBulletLinksAppend(h + p, r);
    OrganicBulletLinksAppend(h, p);
  }

  /** The bullets of the report: the post bullets are the stripped non-blank
      post links in order and the organic bullets are the organic links
      verbatim. */
  lemma ReportLinesBullets(f: ReportFields)
    ensures PostBulletLinks(ReportLines(f)) == StrippedNonBlank(f.postsLinks)
    ensures OrganicBulletLinks(ReportLines(f)) == f.organicLinks
  {
    BulletLinksOfSections(HeadLines(f), PostBullets(f.postsLinks), ResultLines(f), OrganicLines(f.organicLinks), ClosingLines(f));
    FixedSectionsHaveNoBullets(f);
    PostBulletLinksOfBullets(StrippedNonBlank(f.postsLinks));
    OrganicLinesBullets(f.organicLinks);
  }

  /** Only the head can hold a period line, only the results a screenshots
      line, only the organic block its header. */
  lemma SectionKinds(f: ReportFields, l: Line)
    ensures l in PostBullets(f.postsLinks) ==> l.PostBullet?
    ensures l in OrganicLines(f.organicLinks) ==> l == OrganicHeader || l.OrganicBullet?
    ensures l in HeadLines(f) ==> l.TitleLine? || l.PeriodLine? || l == Blank || l == PostsHeader
    ensures l in ResultLines(f) ==> !l.PeriodLine? && l != OrganicHeader
    ensures l in ClosingLines(f) ==> !l.PeriodLine? && !l.ScreenshotsLine? && l != OrganicHeader
    ensures l.PeriodLine? && l in HeadLines(f) ==> l == PeriodLine(f.period) && f.period != ""
    ensures l.ScreenshotsLine? && l in ResultLines(f) ==> f.screenshotsFolderUrl == Some(l.url) && l.url != ""
  {
    if l in OrganicLines(f.organicLinks) && l != OrganicHeader {
      var k :| 0 <= k < |OrganicLines(f.organicLinks)| && OrganicLines(f.organicLinks)[k] == l;
      assert k >= 1;
      assert OrganicLines(f.organicLinks)[k] == OrganicBullets(f.organicLinks)[k - 1];
    }
  }

  /** The fixed lines of the report: the period line is there exactly when the
      period is non-empty and the screenshots line exactly when the folder URL
      is truthy; the mediaplan line, the organic-reach sentence and the
      disclaimer are always there; the organic header is there exactly when
      there are organic links. */
  lemma ReportLinesSections(f: ReportFields)
    ensures PeriodLine(f.period) in ReportLines(f) <==> f.period != ""
    ensures forall p :: PeriodLine(p) in ReportLines(f) ==> p == f.period
    ensures HasFolderUrl(f.screenshotsFolderUrl) ==> ScreenshotsLine(f.screenshotsFolderUrl.value) in ReportLines(f)
    ensures forall u :: ScreenshotsLine(u) in ReportLines(f) ==> f.screenshotsFolderUrl == Some(u) && u != ""
    ensures MediaplanLine(f.mediaplan) in ReportLines(f)
    ensures OrganicHeader in ReportLines(f) <==> f.organicLinks != []
    ensures OrganicReachLine(f.organic) in ReportLines(f) && Disclaimer in ReportLines(f)
    ensures PlannedLine(f.planned) in ReportLines(f) && ActualLine(f.actual, f.growthPct) in ReportLines(f)
  {
    var h, posts, r, org, c := HeadLines(f), PostBullets(f.postsLinks), ResultLines(f), OrganicLines(f.organicLinks), ClosingLines(f);
    var ls := ReportLines(f);
    assert ls == h + posts + r + org + c;
    forall l | l in ls
      ensures l.PeriodLine? ==> l == PeriodLine(f.period) && f.period != ""
      ensures l.ScreenshotsLine? ==> f.screenshotsFolderUrl == Some(l.url) && l.url != ""
      ensures l == OrganicHeader ==> f.organicLinks != []
    {
      SectionKinds(f, l);
    }
    assert MediaplanLine(f.mediaplan) in r;
    assert PlannedLine(f.planned) in r && ActualLine(f.actual, f.growthPct) in r;
    assert OrganicReachLine(f.organic) in c && Disclaimer in c;
    if f.organicLinks != [] {
      assert org[0] == OrganicHeader;
    }
    if HasFolderUrl(f.screenshotsFolderUrl) {
      assert r[3] == ScreenshotsLine(f.screenshotsFolderUrl.value);
    }
    if f.period != "" {
      assert h[1] == PeriodLine(f.period);
    }
  }
}
