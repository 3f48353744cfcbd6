/**
 * `highlightMatch`: every case-insensitive occurrence of the query in a title is
 * wrapped in `<mark>` … `</mark>`, left to right and without overlap, keeping the
 * title's own casing.
 *
 * The global, case-insensitive `replace` is modelled as an explicit scan that
 * produces pieces (a plain character, or a marked stretch); `Emit` turns the
 * pieces into markup. `IsHighlighting` is the declarative description of a correct
 * highlighting, and the scan is shown to be the one and only such highlighting.
 */
module Highlight {
  import opened Wrappers
  import opened JsText
  import opened RegexEscape

  /** One piece of a highlighted title: a character left as it is, or a stretch wrapped in a mark. */
  datatype Piece = Plain(c: char) | Marked(s: string)

  const MarkOpen: string := "<mark>"
  const MarkClose: string := "</mark>"

  /** `t` begins with `q`, ignoring ASCII case (the `i` flag of the pattern). */
  predicate StartsWithIgnoreCase(t: string, q: string) {
    |q| <= |t| && Lower(t[..|q|]) == Lower(q)
  }

  /** A case-insensitive occurrence of `q` starts at position `p` of `t`. */
  predicate MatchAt(t: string, q: string, p: int) {
    0 <= p <= |t| && StartsWithIgnoreCase(t[p..], q)
  }

  /**
   * The global replace with the literal `q`: at each position, a match is wrapped
   * and the scan resumes after it; otherwise one character is copied. An empty
   * literal matches at every character boundary, including the end, and the scan
   * then steps over one character.
   */
  function MarkOccurrences(t: string, q: string): seq<Piece>
    decreases |t|
  {
    if StartsWithIgnoreCase(t, q) then
      if |q| > 0 then [Marked(t[..|q|])] + MarkOccurrences(t[|q|..], q)
      else if |t| > 0 then [Marked([]), Plain(t[0])] + MarkOccurrences(t[1..], q)
      else [Marked([])]
    else if |t| > 0 then [Plain(t[0])] + MarkOccurrences(t[1..], q)
    else []
  }

  /** The title text a piece stands for. */
  function PieceText(p: Piece): string {
    match p
    case Plain(c) => [c]
    case Marked(s) => s
  }

  /** The title text the pieces stand for, marks removed. */
  function Unwrap(ps: seq<Piece>): string
    decreases |ps|
  {
    if ps == [] then [] else PieceText(ps[0]) + Unwrap(ps[1..])
  }

  /** The markup of one piece: the replacement `<mark>$1</mark>` for a match. */
  function EmitPiece(p: Piece): string {
    match p
    case Plain(c) => [c]
    case Marked(s) => MarkOpen + s + MarkClose
  }

  /** The markup of the pieces, in order. */
  function Emit(ps: seq<Piece>): string
    decreases |ps|
  {
    if ps == [] then [] else EmitPiece(ps[0]) + Emit(ps[1..])
  }

  /**
   * `highlightMatch(text, query)`: build the pattern from the escaped query,
   * compile it, and replace every match. The pattern always compiles
   * (`CompileEscaped`); where `new RegExp` would throw, the text is returned as is.
   */
  function HighlightMatch(text: string, query: string): (r: string)
    ensures r == Emit(MarkOccurrences(text, query))
  {
    CompileEscaped(query);
    match CompileCapture(RegexSource(query))
    case Some(lit) => Emit(MarkOccurrences(text, lit))
    case None => text
  }

  /**
   * `ps` is a correct highlighting of `t` for a non-empty query `q`: the pieces
   * spell `t`, every marked stretch equals `q` ignoring case, and no match of `q`
   * starts at a character left plain.
   */
  ghost predicate IsHighlighting(t: string, q: string, ps: seq<Piece>) {
    && Unwrap(ps) == t
    && (forall k :: 0 <= k < |ps| && ps[k].Marked? ==> Lower(ps[k].s) == Lower(q))
    && (forall k :: 0 <= k < |ps| && ps[k].Plain? ==> !MatchAt(t, q, |Unwrap(ps[..k])|))
  }

  /** Looking for a match `n` characters further into `t` is looking in `t[n..]`. */
  lemma MatchShift(t: string, q: string, n: nat, p: nat)
    requires n <= |t|
    ensures MatchAt(t[n..], q, p) <==> MatchAt(t, q, n + p)
  {
    if p <= |t| - n {
      assert t[n..][p..] == t[n + p..];
    }
  }

  /** The text of a prefix of pieces, split off the first piece. */
  lemma UnwrapPrefix(ps: seq<Piece>, k: nat)
    requires 0 < k <= |ps|
    ensures Unwrap(ps[..k]) == PieceText(ps[0]) + Unwrap(ps[1..][..k - 1])
  {
    assert ps[..k][1..] == ps[1..][..k - 1];
  }

  /** The pieces `[h] + rest` spell `t` when `h` spells its start and `rest` the remainder. */
  lemma UnwrapCons(t: string, h: Piece, rest: seq<Piece>)
    requires |PieceText(h)| <= |t| && t[..|PieceText(h)|] == PieceText(h)
    requires Unwrap(rest) == t[|PieceText(h)|..]
    ensures Unwrap([h] + rest) == t
  {
    var ps, n := [h] + rest, |PieceText(h)|;
    assert ps[0] == h && ps[1..] == rest;
    assert t == t[..n] + t[n..];
  }

  /** A correct highlighting of the rest of the text, behind a correct first piece, is a correct highlighting. */
  lemma ConsIsHighlighting(t: string, q: string, h: Piece, rest: seq<Piece>)
    requires |PieceText(h)| <= |t| && t[..|PieceText(h)|] == PieceText(h)
    requires h.Marked? ==> Lower(h.s) == Lower(q)
    requires h.Plain? ==> !MatchAt(t, q, 0)
    requires IsHighlighting(t[|PieceText(h)|..], q, rest)
    ensures IsHighlighting(t, q, [h] + rest)
  {
    var ps, n := [h] + rest, |PieceText(h)|;
    UnwrapCons(t, h, rest);
    forall k | 0 <= k < |ps| && ps[k].Marked?
      ensures Lower(ps[k].s) == Lower(q)
    {
      if k > 0 {
        assert ps[k] == rest[k - 1];
      }
    }
    forall k | 0 <= k < |ps| && ps[k].Plain?
      ensures !MatchAt(t, q, |Unwrap(ps[..k])|)
    {
      if k == 0 {
        assert ps[..0] == [];
      } else {
        UnwrapPrefix(ps, k);
        assert ps[k] == rest[k - 1] && ps[1..] == rest;
        MatchShift(t, q, n, |Unwrap(rest[..k - 1])|);
      }
    }
  }

  /** Behind the first piece of a correct highlighting, the remaining pieces highlight the rest of the text. */
  lemma TailIsHighlighting(t: string, q: string, ps: seq<Piece>)
    requires |ps| > 0 && IsHighlighting(t, q, ps)
    ensures |PieceText(ps[0])| <= |t| && t[..|PieceText(ps[0])|] == PieceText(ps[0])
    ensures IsHighlighting(t[|PieceText(ps[0])|..], q, ps[1..])
  {
    var rest, n := ps[1..], |PieceText(ps[0])|;
    assert t == PieceText(ps[0]) + Unwrap(rest);
    assert t[n..] == Unwrap(rest);
    forall k | 0 <= k < |rest| && rest[k].Plain?
      ensures !MatchAt(t[n..], q, |Unwrap(rest[..k])|)
    {
      assert ps[k + 1] == rest[k];
      UnwrapPrefix(ps, k + 1);
      MatchShift(t, q, n, |Unwrap(rest[..k])|);
    }
  }

  /** The scan is a correct highlighting. */
  lemma {:induction false} MarkOccurrencesIsHighlighting(t: string, q: string)
    requires |q| > 0
    ensures IsHighlighting(t, q, MarkOccurrences(t, q))
    decreases |t|
  {
    assert t[0..] == t;
    if StartsWithIgnoreCase(t, q) {
      MarkOccurrencesIsHighlighting(t[|q|..], q);
      ConsIsHighlighting(t, q, Marked(t[..|q|]), MarkOccurrences(t[|q|..], q));
    } else if |t| > 0 {
      MarkOccurrencesIsHighlighting(t[1..], q);
      ConsIsHighlighting(t, q, Plain(t[0]), MarkOccurrences(t[1..], q));
    } else {
      assert Unwrap([]) == t;
    }
  }

  /** A correct highlighting is the scan's: the left-to-right, non-overlapping marking is the only one. */
  lemma {:induction false} HighlightingIsUnique(t: string, q: string, ps: seq<Piece>)
    requires |q| > 0 && IsHighlighting(t, q, ps)
    ensures ps == MarkOccurrences(t, q)
    decreases |ps|
  {
    assert t[0..] == t;
    if ps == [] {
      assert t == [];
    } else {
      TailIsHighlighting(t, q, ps);
      HighlightingIsUnique(t[|PieceText(ps[0])|..], q, ps[1..]);
      assert ps[..0] == [];
      match ps[0]
      case Plain(c) =>
        assert !MatchAt(t, q, 0);
      case Marked(s) =>
        assert |Lower(s)| == |s|;
        assert t[..|q|] == s;
    }
  }

  /** A match anywhere in the title yields at least one marked piece. */
  lemma {:induction false} MatchIsMarked(t: string, q: string, p: int)
    requires |q| > 0 && MatchAt(t, q, p)
    ensures exists k :: 0 <= k < |MarkOccurrences(t, q)| && MarkOccurrences(t, q)[k].Marked?
    decreases |t|
  {
    var ps := MarkOccurrences(t, q);
    if StartsWithIgnoreCase(t, q) {
      assert ps[0].Marked?;
    } else {
      assert t[0..] == t;
      assert p > 0;
      MatchShift(t, q, 1, p - 1);
      MatchIsMarked(t[1..], q, p - 1);
      var k :| 0 <= k < |MarkOccurrences(t[1..], q)| && MarkOccurrences(t[1..], q)[k].Marked?;
      assert ps[k + 1].Marked?;
    }
  }

  /**
   * Under the model's one ASCII case mapping, the matcher and the highlighter agree:
   * when the lower-cased title includes the (lower-case, non-empty) query, the title
   * gets at least one mark. Outside ASCII, JavaScript's `toLowerCase` and the `i`
   * flag may disagree, and this is not modelled.
   */
  lemma IncludedQueryIsMarked(title: string, query: string)
    requires |query| > 0 && Includes(Lower(title), query) && Lower(query) == query
    ensures exists k :: 0 <= k < |MarkOccurrences(title, query)| && MarkOccurrences(title, query)[k].Marked?
  {
    IncludesIsOccurrence(Lower(title), query);
    var p :| OccursAt(Lower(title), query, p);
    LowerSlice(title, p, p + |query|);
    assert title[p..][..|query|] == title[p..p + |query|];
    MatchIsMarked(title, query, p);
  }

  /** An opening mark tag starts at position `p` of the markup `s`. */
  predicate OpenAt(s: string, p: int) {
    0 <= p && p + |MarkOpen| <= |s| && s[p..p + |MarkOpen|] == MarkOpen
  }

  /** An opening tag in `r` is still one, further on, in `h + r`. */
  lemma OpenShift(h: string, r: string, p: int)
    requires OpenAt(r, p)
    ensures OpenAt(h + r, |h| + p)
  {
    assert (h + r)[|h| + p..|h| + p + |MarkOpen|] == r[p..p + |MarkOpen|];
  }

  /** Every marked piece puts an opening tag into the emitted markup. */
  lemma {:induction false} MarkedPieceEmitsOpen(ps: seq<Piece>, k: nat)
    requires k < |ps| && ps[k].Marked?
    ensures exists p :: OpenAt(Emit(ps), p)
    decreases k
  {
    var head, rest := EmitPiece(ps[0]), Emit(ps[1..]);
    assert Emit(ps) == head + rest;
    if k == 0 {
      assert head == MarkOpen + (ps[0].s + MarkClose);
      assert (head + rest)[..|MarkOpen|] == MarkOpen;
      assert OpenAt(Emit(ps), 0);
    } else {
      MarkedPieceEmitsOpen(ps[1..], k - 1);
      var p :| OpenAt(rest, p);
      OpenShift(head, rest, p);
    }
  }

  /**
   * The rendered form of the same fact: a title containing the query, under the
   * model's case mapping, renders with at least one opening mark tag.
   */
  lemma IncludedQueryIsTagged(title: string, query: string)
    requires |query| > 0 && Includes(Lower(title), query) && Lower(query) == query
    ensures exists p :: OpenAt(HighlightMatch(title, query), p)
  {
    var ps := MarkOccurrences(title, query);
    IncludedQueryIsMarked(title, query);
    var k :| 0 <= k < |ps| && ps[k].Marked?;
    MarkedPieceEmitsOpen(ps, k);
    var p :| OpenAt(Emit(ps), p);
    assert OpenAt(HighlightMatch(title, query), p);
  }

  /** Deletes every `<mark>` and `</mark>` from markup. */
  function StripMarks(s: string): string
    decreases |s|
  {
    if |s| >= |MarkOpen| && s[..|MarkOpen|] == MarkOpen then StripMarks(s[|MarkOpen|..])
    else if |s| >= |MarkClose| && s[..|MarkClose|] == MarkClose then StripMarks(s[|MarkClose|..])
    else if s == [] then []
    else [s[0]] + StripMarks(s[1..])
  }

  /** Text without a `<` passes through `StripMarks` untouched. */
  lemma {:induction false} StripPlainText(x: string, y: string)
    requires '<' !in x
    ensures StripMarks(x + y) == x + StripMarks(y)
    decreases |x|
  {
    if x == [] {
      assert x + y == y;
    } else {
      var s := x + y;
      assert s[0] == x[0] && s[0] != '<';
      assert !(|s| >= |MarkOpen| && s[..|MarkOpen|] == MarkOpen) by {
        if |s| >= |MarkOpen| { assert s[..|MarkOpen|][0] == s[0]; }
      }
      assert !(|s| >= |MarkClose| && s[..|MarkClose|] == MarkClose) by {
        if |s| >= |MarkClose| { assert s[..|MarkClose|][0] == s[0]; }
      }
      assert s[1..] == x[1..] + y;
      StripPlainText(x[1..], y);
      calc {
        StripMarks(s);
        [s[0]] + StripMarks(s[1..]);
        [x[0]] + (x[1..] + StripMarks(y));
        ([x[0]] + x[1..]) + StripMarks(y);
        { assert [x[0]] + x[1..] == x; }
        x + StripMarks(y);
      }
    }
  }

  /** An opening and a closing mark are deleted. */
  lemma StripMarkTags(y: string)
    ensures StripMarks(MarkOpen + y) == StripMarks(y)
    ensures StripMarks(MarkClose + y) == StripMarks(y)
  {
    assert (MarkOpen + y)[..|MarkOpen|] == MarkOpen && (MarkOpen + y)[|MarkOpen|..] == y;
    var s := MarkClose + y;
    assert s[1] == '/';
    assert s[..|MarkClose|] == MarkClose && s[|MarkClose|..] == y;
  }

  /** Deleting the marks from a marked piece's markup leaves the matched text. */
  lemma StripMarkedPiece(s: string, rest: string)
    requires '<' !in s
    ensures StripMarks(EmitPiece(Marked(s)) + rest) == s + StripMarks(rest)
  {
    assert EmitPiece(Marked(s)) + rest == MarkOpen + (s + (MarkClose + rest));
    StripMarkTags(s + (MarkClose + rest));
    StripPlainText(s, MarkClose + rest);
    StripMarkTags(rest);
  }

  /** Deleting the marks from the emitted pieces gives back the text they spell, when that text holds no `<`. */
  lemma {:induction false} StripEmit(ps: seq<Piece>)
    requires '<' !in Unwrap(ps)
    ensures StripMarks(Emit(ps)) == Unwrap(ps)
    decreases |ps|
  {
    if ps == [] {
      assert StripMarks([]) == [];
    } else {
      var h, rest := ps[0], Emit(ps[1..]);
      assert Emit(ps) == EmitPiece(h) + rest;
      assert Unwrap(ps) == PieceText(h) + Unwrap(ps[1..]);
      StripEmit(ps[1..]);
      match h
      case Plain(c) =>
        StripPlainText([c], rest);
      case Marked(s) =>
        StripMarkedPiece(s, rest);
    }
  }

  /**
   * Deleting the inserted marks from `highlightMatch`'s output gives back the
   * title. A title that itself holds `<` is excluded, because its own text could
   * spell a mark tag.
   */
  lemma HighlightRoundTrip(title: string, query: string)
    requires '<' !in title
    ensures StripMarks(HighlightMatch(title, query)) == title
  {
    MarkOccurrencesRestores(title, query);
    StripEmit(MarkOccurrences(title, query));
  }

  /** The text of pieces that start with `h`: `h`'s text, then the rest's. */
  lemma UnwrapHead(h: Piece, rest: seq<Piece>)
    ensures Unwrap([h] + rest) == PieceText(h) + Unwrap(rest)
  {
    assert ([h] + rest)[0] == h && ([h] + rest)[1..] == rest;
  }

  /** The scan keeps every character of the text, for any query including the empty one. */
  lemma {:induction false} MarkOccurrencesRestores(t: string, q: string)
    ensures Unwrap(MarkOccurrences(t, q)) == t
    decreases |t|
  {
    if StartsWithIgnoreCase(t, q) {
      if |q| > 0 {
        var rest := MarkOccurrences(t[|q|..], q);
        MarkOccurrencesRestores(t[|q|..], q);
        UnwrapHead(Marked(t[..|q|]), rest);
        assert t == t[..|q|] + t[|q|..];
      } else if |t| > 0 {
        var rest := MarkOccurrences(t[1..], q);
        MarkOccurrencesRestores(t[1..], q);
        assert MarkOccurrences(t, q) == [Marked([])] + ([Plain(t[0])] + rest);
        UnwrapHead(Marked([]), [Plain(t[0])] + rest);
        UnwrapHead(Plain(t[0]), rest);
        assert t == [t[0]] + t[1..];
      } else {
        UnwrapHead(Marked([]), []);
      }
    } else if |t| > 0 {
      var rest := MarkOccurrences(t[1..], q);
      MarkOccurrencesRestores(t[1..], q);
      UnwrapHead(Plain(t[0]), rest);
      assert t == [t[0]] + t[1..];
    }
  }
}
