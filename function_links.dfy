/**
 * The `[[Name]]` auto-linker of assets/js/function-links.js.
 *
 * Every candidate element's markup is rewritten by a global replace of the
 * pattern /\[\[([^\]]+)\]\]/ : each match becomes an anchor to the page that
 * documents the function, the link text keeps the name as written and the
 * fragment is the lower-cased name. The markup is modelled as a string; the
 * scan is `Scan`, which cuts the markup into single characters and matches.
 */
module FunctionLinks {
  import opened Wrappers

  /** Tag names selected by the element query of `linkFunctionReferences`. */
  const CandidateTags: set<string> := {"p", "li", "td", "th", "h1", "h2", "h3", "h4", "h5", "h6"}

  const InternalHelpersDoc := "internal-helpers"
  const ApiReferenceDoc := "api-reference"

  // ---------------------------------------------------------------------------
  // The pattern

  /** What the capture group `[^\]]+` accepts: a non-empty run without `]`. */
  predicate IsRefName(name: string) {
    |name| > 0 && forall k :: 0 <= k < |name| ==> name[k] != ']'
  }

  /** The markup a reference is written as. */
  function Bracketed(name: string): string {
    "[[" + name + "]]"
  }

  /** Length of the longest prefix of `s` that holds no `]`. */
  function RunLength(s: string): (n: nat)
    ensures n <= |s|
  {
    if s == [] || s[0] == ']' then 0 else 1 + RunLength(s[1..])
  }

  /** The run stops at the first `]`, or at the end of `s`. */
  lemma {:induction false} RunLengthSpec(s: string)
    ensures forall k :: 0 <= k < RunLength(s) ==> s[k] != ']'
    ensures RunLength(s) < |s| ==> s[RunLength(s)] == ']'
  {
    if s != [] && s[0] != ']' {
      RunLengthSpec(s[1..]);
    }
  }

  /**
   * The name captured by a match of the pattern that starts at the first
   * character of `s`, if the pattern matches there. The capture runs up to
   * the first `]`; the match needs a second `]` right after it.
   */
  function MatchName(s: string): (r: Option<string>)
    ensures r.Some? ==> |r.value| + 4 <= |s|
  {
    if 2 <= |s| && s[0] == '[' && s[1] == '[' then
      var n := RunLength(s[2..]);
      if 0 < n && 3 + n < |s| && s[3 + n] == ']' then Some(s[2..2 + n]) else None
    else None
  }

  /** The pattern matches at the start of `s` exactly with the names it can capture there. */
  lemma MatchNameExact(s: string, name: string)
    ensures MatchName(s) == Some(name) <==> IsRefName(name) && Bracketed(name) <= s
  {
    if 2 <= |s| {
      RunLengthSpec(s[2..]);
    }
    if MatchName(s) == Some(name) {
      var n := |name|;
      assert s[..n + 4] == Bracketed(name);
    }
    if IsRefName(name) && Bracketed(name) <= s {
      var b, t := Bracketed(name), s[2..];
      assert s[..|b|] == b;
      assert forall j :: 0 <= j < |name| ==> t[j] == b[j + 2] == name[j];
      assert t[|name|] == b[|name| + 2] == ']';
      assert s[3 + |name|] == b[3 + |name|] == ']';
      assert RunLength(t) == |name|;
      assert s[2..2 + |name|] == name;
    }
  }

  // ---------------------------------------------------------------------------
  // The link that replaces a match

  /** The source's classification of a function name as an internal helper. */
  predicate IsInternalHelper(name: string) {
    "Apply-" <= name || "Sanitize-" <= name || "ConvertTo-" <= name || name == "Get-DefaultDisplayValue"
  }

  /** ASCII lower-casing of one character. */
  function LowerChar(c: char): char {
    if 'A' <= c <= 'Z' then (c as int + 32) as char else c
  }

  /** `toLowerCase`, restricted to ASCII letters. */
  function Lower(s: string): string {
    if s == [] then [] else [LowerChar(s[0])] + Lower(s[1..])
  }

  /** Lower-casing maps each character on its own and keeps the length. */
  lemma {:induction false} LowerSpec(s: string)
    ensures |Lower(s)| == |s|
    ensures forall k :: 0 <= k < |s| ==> Lower(s)[k] == LowerChar(s[k])
  {
    if s != [] {
      LowerSpec(s[1..]);
    }
  }

  /** The parts of the anchor built for one match. */
  datatype Anchor = Anchor(doc: string, fragment: string, text: string)

  /** The anchor for the captured name: target page by classification, fragment lower-cased, text as written. */
  function AnchorFor(name: string): (a: Anchor)
    ensures a.text == name
    ensures a.fragment == Lower(name)
    ensures a.doc == InternalHelpersDoc <==> IsInternalHelper(name)
    ensures a.doc == ApiReferenceDoc <==> !IsInternalHelper(name)
  {
    var doc := if IsInternalHelper(name) then InternalHelpersDoc else ApiReferenceDoc;
    Anchor(doc, Lower(name), name)
  }

  /** The markup of an anchor, as the replace callback writes it. */
  function AnchorHtml(a: Anchor): string {
    "<a href=\"/docs/" + a.doc + "#" + a.fragment + "\" class=\"function-link\">" + a.text + "</a>"
  }

  /** The replacement for a match that captured `name`. */
  function Link(name: string): string {
    AnchorHtml(AnchorFor(name))
  }

  /** The replacement is always longer than the match it replaces. */
  lemma LinkLonger(name: string)
    ensures |Link(name)| > |Bracketed(name)|
  {
    LowerSpec(name);
  }

  // ---------------------------------------------------------------------------
  // The scan

  /** One step of the scan: a character copied through, or a match. */
  datatype Piece = Text(c: char) | Ref(name: string)

  /** The markup the pieces were read from. */
  function Source(ps: seq<Piece>): string {
    if ps == [] then []
    else (match ps[0] case Text(c) => [c] case Ref(name) => Bracketed(name)) + Source(ps[1..])
  }

  /** The markup the pieces are written back as. */
  function Render(ps: seq<Piece>): string {
    if ps == [] then []
    else (match ps[0] case Text(c) => [c] case Ref(name) => Link(name)) + Render(ps[1..])
  }

  /** Every match captured a name the pattern admits. */
  predicate RefsValid(ps: seq<Piece>) {
    forall k :: 0 <= k < |ps| && ps[k].Ref? ==> IsRefName(ps[k].name)
  }

  /** No character was copied through where the pattern matches: matches are taken leftmost. */
  predicate Greedy(ps: seq<Piece>) {
    forall k :: 0 <= k < |ps| && ps[k].Text? ==> MatchName(Source(ps[k..])).None?
  }

  /**
   * The global scan: at each position take the match if the pattern matches
   * there and resume after it, otherwise copy one character and move on.
   */
  function Scan(s: string): seq<Piece>
    decreases |s|
  {
    if s == [] then []
    else match MatchName(s)
      case Some(name) => [Ref(name)] + Scan(s[|name| + 4..])
      case None => [Text(s[0])] + Scan(s[1..])
  }

  /** Reading the scan back gives the markup it was made from, and every capture is one the pattern admits. */
  lemma {:induction false} ScanRoundTrip(s: string)
    ensures Source(Scan(s)) == s
    ensures RefsValid(Scan(s))
    decreases |s|
  {
    if s != [] {
      var ps := Scan(s);
      match MatchName(s)
      case Some(name) =>
        MatchNameExact(s, name);
        assert s == Bracketed(name) + s[|name| + 4..];
        ScanRoundTrip(s[|name| + 4..]);
        assert ps[1..] == Scan(s[|name| + 4..]);
      case None =>
        assert s == [s[0]] + s[1..];
        ScanRoundTrip(s[1..]);
        assert ps[1..] == Scan(s[1..]);
    }
  }

  /** The markup with every match of the pattern, found by the scan, replaced by its link. */
  function Rewrite(s: string): string {
    Render(Scan(s))
  }

  /** The scan takes every match it reaches. */
  lemma {:induction false} ScanGreedy(s: string)
    ensures Greedy(Scan(s))
    decreases |s|
  {
    if s != [] {
      var ps := Scan(s);
      var rest := ps[1..];
      ScanRoundTrip(s);
      match MatchName(s)
      case Some(name) =>
        assert rest == Scan(s[|name| + 4..]);
        ScanGreedy(s[|name| + 4..]);
      case None =>
        assert rest == Scan(s[1..]);
        ScanGreedy(s[1..]);
      forall k | 0 <= k < |ps| && ps[k].Text?
        ensures MatchName(Source(ps[k..])).None?
      {
        if k > 0 {
          assert ps[k..] == rest[k - 1..];
        }
      }
    }
  }

  /** Valid captures and leftmost matching carry over to the tail of a piece sequence. */
  lemma TailKeepsScanShape(ps: seq<Piece>)
    requires ps != [] && RefsValid(ps) && Greedy(ps)
    ensures RefsValid(ps[1..]) && Greedy(ps[1..])
  {
    var rest := ps[1..];
    forall k | 0 <= k < |rest| && rest[k].Ref? ensures IsRefName(rest[k].name) {
      assert rest[k] == ps[k + 1];
    }
    forall k | 0 <= k < |rest| && rest[k].Text? ensures MatchName(Source(rest[k..])).None? {
      assert rest[k..] == ps[k + 1..];
    }
  }

  /**
   * The scan is the only way to read `s` as characters and valid matches with
   * every match taken leftmost.
   */
  lemma {:induction false} ScanUnique(s: string, ps: seq<Piece>)
    requires Source(ps) == s && RefsValid(ps) && Greedy(ps)
    ensures ps == Scan(s)
    decreases |ps|
  {
    if ps != [] {
      var rest := ps[1..];
      TailKeepsScanShape(ps);
      match ps[0]
      case Text(c) =>
        assert ps[0..] == ps;
        assert MatchName(s).None?;
        ScanUnique(s[1..], rest);
      case Ref(name) =>
        assert Bracketed(name) <= s;
        MatchNameExact(s, name);
        assert s[|name| + 4..] == Source(rest);
        ScanUnique(s[|name| + 4..], rest);
    }
  }

  /** The scan is characterised by the round trip, the valid captures and leftmost matching. */
  lemma ScanCharacterised(s: string, ps: seq<Piece>)
    ensures ps == Scan(s) <==> Source(ps) == s && RefsValid(ps) && Greedy(ps)
  {
    if ps == Scan(s) {
      ScanRoundTrip(s);
      ScanGreedy(s);
    }
    if Source(ps) == s && RefsValid(ps) && Greedy(ps) {
      ScanUnique(s, ps);
    }
  }

  // ---------------------------------------------------------------------------
  // When the markup changes

  /** Some match was found. */
  predicate HasRef(ps: seq<Piece>) {
    ps != [] && (ps[0].Ref? || HasRef(ps[1..]))
  }

  /** The pattern matches somewhere in `s` (what `test` on the pattern would say). */
  predicate HasMatch(s: string) {
    exists i :: 0 <= i < |s| && MatchName(s[i..]).Some?
  }

  /** Pieces without a match render to their own source; a match makes the rendering longer. */
  lemma {:induction false} RenderVersusSource(ps: seq<Piece>)
    ensures |Render(ps)| >= |Source(ps)|
    ensures !HasRef(ps) ==> Render(ps) == Source(ps)
    ensures HasRef(ps) ==> |Render(ps)| > |Source(ps)|
  {
    if ps != [] {
      RenderVersusSource(ps[1..]);
      match ps[0]
      case Text(c) =>
      case Ref(name) => LinkLonger(name);
    }
  }

  /** The pattern matches somewhere in a non-empty `s` iff it matches at its start or somewhere in its tail. */
  lemma HasMatchUnfold(s: string)
    requires s != []
    ensures HasMatch(s) <==> MatchName(s).Some? || HasMatch(s[1..])
  {
    assert s[0..] == s;
    if HasMatch(s[1..]) {
      var i :| 0 <= i < |s[1..]| && MatchName(s[1..][i..]).Some?;
      assert s[1..][i..] == s[i + 1..];
    }
    if HasMatch(s) && MatchName(s).None? {
      var i :| 0 <= i < |s| && MatchName(s[i..]).Some?;
      assert s[i..] == s[1..][i - 1..];
    }
  }

  /** The scan finds a match exactly when the pattern matches somewhere. */
  lemma {:induction false} ScanFindsMatch(s: string)
    ensures HasRef(Scan(s)) <==> HasMatch(s)
    decreases |s|
  {
    if s != [] {
      HasMatchUnfold(s);
      match MatchName(s)
      case Some(name) =>
      case None =>
        ScanFindsMatch(s[1..]);
    }
  }

  /** The replace changes the markup exactly when the pattern matches somewhere in it. */
  lemma RewriteChangesIff(s: string)
    ensures Rewrite(s) != s <==> HasMatch(s)
  {
    ScanRoundTrip(s);
    RenderVersusSource(Scan(s));
    ScanFindsMatch(s);
  }

  /** Markup without an opening `[[` is returned as it was. */
  lemma NoOpenBracketsUnchanged(s: string)
    requires forall i :: 0 <= i < |s| - 1 ==> !(s[i] == '[' && s[i + 1] == '[')
    ensures Rewrite(s) == s
  {
    RewriteChangesIff(s);
    forall i | 0 <= i < |s| ensures MatchName(s[i..]).None? {
      if MatchName(s[i..]).Some? {
        assert false;
      }
    }
  }

  /** The replace never shortens the markup. */
  lemma RewriteNeverShorter(s: string)
    ensures |Rewrite(s)| >= |s|
  {
    ScanRoundTrip(s);
    RenderVersusSource(Scan(s));
  }

  // ---------------------------------------------------------------------------
  // The pass over the page

  /** A content element of the page, with the markup the pass may rewrite. */
  class Element {
    /** The element's tag name, lower case. */
    const tag: string
    /** The element, or one of its ancestors, is a `pre`, a `code` or has the class `highlight`. */
    const inCodeContext: bool
    var innerHtml: string

    constructor (tag: string, inCodeContext: bool, innerHtml: string)
      ensures this.tag == tag && this.inCodeContext == inCodeContext && this.innerHtml == innerHtml
    {
      this.tag := tag;
      this.inCodeContext := inCodeContext;
      this.innerHtml := innerHtml;
    }
  }

  /** The pass looks at the element: its tag is selected and it is not inside code. */
  predicate IsCandidate(e: Element) {
    e.tag in CandidateTags && !e.inCodeContext
  }

  /**
   * The callback run for one element: a candidate whose markup the replace
   * changes gets the new markup; every other element is left alone, and so
   * is a candidate whose markup the replace would not change. By
   * `RewriteChangesIff`, the markup changes exactly when the pattern matches.
   */
  method LinkElement(element: Element) returns (written: bool)
    modifies element
    ensures written == (IsCandidate(element) && Rewrite(old(element.innerHtml)) != old(element.innerHtml))
    ensures element.innerHtml == if IsCandidate(element) then Rewrite(old(element.innerHtml)) else old(element.innerHtml)
  {
    written := false;
    if element.tag in CandidateTags && !element.inCodeContext {
      var html := element.innerHtml;
      var processed := Rewrite(html);
      if processed != html {
        element.innerHtml := processed;
        written := true;
      }
    }
  }

  /**
   * `linkFunctionReferences` over the elements of the page in document order:
   * every candidate ends up with the rewritten markup and every other element
   * keeps its own. `written[i]` tells whether the markup of `elements[i]` was
   * assigned at all, which happens only where the replace changed it.
   */
  method LinkFunctionReferences(elements: seq<Element>) returns (written: seq<bool>)
    requires forall i, j :: 0 <= i < j < |elements| ==> elements[i] != elements[j]
    modifies elements
    ensures |written| == |elements|
    ensures forall i :: 0 <= i < |elements| ==>
      written[i] == (IsCandidate(elements[i]) && Rewrite(old(elements[i].innerHtml)) != old(elements[i].innerHtml))
    ensures forall i :: 0 <= i < |elements| ==>
      elements[i].innerHtml == if IsCandidate(elements[i]) then Rewrite(old(elements[i].innerHtml)) else old(elements[i].innerHtml)
  {
    written := [];
    ghost var before := seq(|elements|, k requires 0 <= k < |elements| reads elements => elements[k].innerHtml);
    for i := 0 to |elements|
      invariant |written| == i
      invariant forall k :: 0 <= k < i ==>
        written[k] == (IsCandidate(elements[k]) && Rewrite(before[k]) != before[k])
      invariant forall k :: 0 <= k < i ==>
        elements[k].innerHtml == if IsCandidate(elements[k]) then Rewrite(before[k]) else before[k]
      invariant forall k :: i <= k < |elements| ==> elements[k].innerHtml == before[k]
    {
      label Visit:
      var changed := LinkElement(elements[i]);
      assert forall k :: 0 <= k < |elements| && k != i ==>
        elements[k].innerHtml == old@Visit(elements[k].innerHtml);
      written := written + [changed];
    }
  }
}
