/**
 * The field-label iconizer of assets/js/field-icons.js.
 *
 * A `<strong>` directly inside a `p` or an `li` whose trimmed text is one of
 * five field labels gets the label's icon prepended to its markup and the
 * class `field-iconized`, which keeps the decoration from being added twice.
 */
module FieldIcons {
  import opened Wrappers

  /** The five labels and their icons. */
  const FieldIconTable: map<string, string> := map[
    "Purpose:" := "\U{1F3AF}",
    "Used by:" := "\U{1F9E9}",
    "Description:" := "\U{1F4DD}",
    "Parameters:" := "\U{1F538}",
    "Returns:" := "\U{1F4E4}"
  ]

  /** The class that marks a decorated label. */
  const IconizedClass := "field-iconized"

  /** The parents the element query `p > strong, li > strong` accepts. */
  const LabelParents: set<string> := {"p", "li"}

  // ---------------------------------------------------------------------------
  // String.prototype.trim

  /** The characters `trim` removes: white space and line terminators. */
  predicate IsWhiteSpace(c: char) {
    c == '\t' || c == '\n' || c == '\U{B}' || c == '\U{C}' || c == '\r' || c == ' '
    || c == '\U{A0}' || c == '\U{1680}' || ('\U{2000}' <= c <= '\U{200A}')
    || c == '\U{2028}' || c == '\U{2029}' || c == '\U{202F}' || c == '\U{205F}'
    || c == '\U{3000}' || c == '\U{FEFF}'
  }

  /** `s` without its leading white space. */
  function TrimStart(s: string): (r: string)
    ensures |r| <= |s|
  {
    if s != [] && IsWhiteSpace(s[0]) then TrimStart(s[1..]) else s
  }

  /** `s` without its trailing white space. */
  function TrimEnd(s: string): (r: string)
    ensures |r| <= |s|
  {
    if s != [] && IsWhiteSpace(s[|s| - 1]) then TrimEnd(s[..|s| - 1]) else s
  }

  /** `s` without white space at either end, as `String.prototype.trim` gives it. */
  function Trim(s: string): string {
    TrimEnd(TrimStart(s))
  }

  /** `TrimStart` drops exactly the leading white space: what is left is a suffix that starts with another character. */
  lemma {:induction false} TrimStartSpec(s: string)
    ensures TrimStart(s) == s[|s| - |TrimStart(s)|..]
    ensures forall k :: 0 <= k < |s| - |TrimStart(s)| ==> IsWhiteSpace(s[k])
    ensures TrimStart(s) != [] ==> !IsWhiteSpace(TrimStart(s)[0])
  {
    if s != [] && IsWhiteSpace(s[0]) {
      TrimStartSpec(s[1..]);
    }
  }

  /** `TrimEnd` drops exactly the trailing white space: what is left is a prefix that ends with another character. */
  lemma {:induction false} TrimEndSpec(s: string)
    ensures TrimEnd(s) == s[..|TrimEnd(s)|]
    ensures forall k :: |TrimEnd(s)| <= k < |s| ==> IsWhiteSpace(s[k])
    ensures TrimEnd(s) != [] ==> !IsWhiteSpace(TrimEnd(s)[|TrimEnd(s)| - 1])
  {
    if s != [] && IsWhiteSpace(s[|s| - 1]) {
      TrimEndSpec(s[..|s| - 1]);
    }
  }

  /** `trim` keeps the part of `s` between its leading and its trailing white space. */
  lemma TrimSpec(s: string)
    ensures var r, i := Trim(s), |s| - |TrimStart(s)|;
      i + |r| <= |s| && r == s[i..i + |r|]
      && (forall k :: 0 <= k < i ==> IsWhiteSpace(s[k]))
      && (forall k :: i + |r| <= k < |s| ==> IsWhiteSpace(s[k]))
      && (r != [] ==> !IsWhiteSpace(r[0]) && !IsWhiteSpace(r[|r| - 1]))
  {
    var t := TrimStart(s);
    var r := TrimEnd(t);
    var i := |s| - |t|;
    TrimStartSpec(s);
    TrimEndSpec(t);
    assert r == s[i..i + |r|];
    if r != [] {
      assert r[0] == t[0];
    }
  }

  /** Trimming a string that neither starts nor ends with white space leaves it as it is. */
  lemma TrimTrimmed(s: string)
    requires s != [] ==> !IsWhiteSpace(s[0]) && !IsWhiteSpace(s[|s| - 1])
    ensures Trim(s) == s
  {
  }

  /** Trimming the labels themselves: each key of the table is already trimmed. */
  lemma KeysAreTrimmed(key: string)
    requires key in FieldIconTable
    ensures Trim(key) == key
  {
    TrimTrimmed(key);
  }

  /** Leading white space in front of text that does not start with white space is exactly what `TrimStart` drops. */
  lemma {:induction false} TrimStartSkips(w: string, t: string)
    requires forall k :: 0 <= k < |w| ==> IsWhiteSpace(w[k])
    requires t != [] ==> !IsWhiteSpace(t[0])
    ensures TrimStart(w + t) == t
    decreases |w|
  {
    if w == [] {
      assert w + t == t;
    } else {
      assert (w + t)[0] == w[0];
      assert (w + t)[1..] == w[1..] + t;
      TrimStartSkips(w[1..], t);
    }
  }

  /** Trailing white space after text that does not end with white space is exactly what `TrimEnd` drops. */
  lemma {:induction false} TrimEndSkips(t: string, w: string)
    requires forall k :: 0 <= k < |w| ==> IsWhiteSpace(w[k])
    requires t != [] ==> !IsWhiteSpace(t[|t| - 1])
    ensures TrimEnd(t + w) == t
    decreases |w|
  {
    if w == [] {
      assert t + w == t;
    } else {
      var u := t + w;
      assert u[|u| - 1] == w[|w| - 1];
      assert u[..|u| - 1] == t + w[..|w| - 1];
      TrimEndSkips(t, w[..|w| - 1]);
    }
  }

  /** A label written with white space around it is still one of the keys once trimmed. */
  lemma KeyMatchesDespiteWhiteSpace(key: string, before: string, after: string)
    requires key in FieldIconTable
    requires forall k :: 0 <= k < |before| ==> IsWhiteSpace(before[k])
    requires forall k :: 0 <= k < |after| ==> IsWhiteSpace(after[k])
    ensures Trim(before + key + after) == key
  {
    assert key != [] && !IsWhiteSpace(key[0]) && !IsWhiteSpace(key[|key| - 1]);
    assert before + key + after == before + (key + after);
    assert (key + after)[0] == key[0];
    TrimStartSkips(before, key + after);
    TrimEndSkips(key, after);
  }

  // ---------------------------------------------------------------------------
  // The decoration of one label

  /** What the pass reads and writes of a `<strong>`: its text, its markup and its class list. */
  datatype LabelState = LabelState(text: string, html: string, classes: seq<string>)

  /** `fieldIcons[label]`, on the table's own keys. */
  function IconFor(key: string): (r: Option<string>)
    ensures r.Some? <==> key in FieldIconTable
    ensures r.Some? ==> r.value == FieldIconTable[key] && r.value != ""
  {
    if key in FieldIconTable then Some(FieldIconTable[key]) else None
  }

  /** The markup put in front of the label's own markup. */
  function IconSpan(icon: string): string {
    "<span class=\"field-icon\">" + icon + "</span> "
  }

  /** Adding a class to a class list: the class is appended unless it is there already. */
  function AddClass(classes: seq<string>, c: string): (r: seq<string>)
    ensures c in r
    ensures forall d :: d in classes ==> d in r
    ensures forall d :: d in r ==> d in classes || d == c
  {
    if c in classes then classes else classes + [c]
  }

  /** The decoration step for one `<strong>`. */
  function Iconize(s: LabelState): LabelState {
    match IconFor(Trim(s.text))
    case None => s
    case Some(icon) =>
      if IconizedClass in s.classes then s
      else LabelState(icon + " " + s.text, IconSpan(icon) + s.html, AddClass(s.classes, IconizedClass))
  }

  /** A label is decorated exactly when its trimmed text is a key of the table and it is not marked yet. */
  lemma IconizeChangesIff(s: LabelState)
    ensures Iconize(s) != s <==> Trim(s.text) in FieldIconTable && IconizedClass !in s.classes
    ensures Iconize(s).html != s.html <==> Trim(s.text) in FieldIconTable && IconizedClass !in s.classes
  {
    if Trim(s.text) in FieldIconTable && IconizedClass !in s.classes {
      assert |Iconize(s).html| > |s.html|;
    }
  }

  /** A decorated label keeps its markup as a suffix after the mapped icon, and carries the mark. */
  lemma IconizeDecoration(s: LabelState)
    requires Trim(s.text) in FieldIconTable && IconizedClass !in s.classes
    ensures Iconize(s).html == IconSpan(FieldIconTable[Trim(s.text)]) + s.html
    ensures Iconize(s).html[|Iconize(s).html| - |s.html|..] == s.html
    ensures IconizedClass in Iconize(s).classes
    ensures forall d :: d in s.classes ==> d in Iconize(s).classes
  {
  }

  /** Running the step again changes nothing. */
  lemma IconizeIdempotent(s: LabelState)
    ensures Iconize(Iconize(s)) == Iconize(s)
  {
  }

  // ---------------------------------------------------------------------------
  // The elements and the pass

  class StrongElement {
    /** The tag of the element's parent. */
    const parentTag: string
    var textContent: string
    var innerHtml: string
    var classList: seq<string>

    constructor (parentTag: string, textContent: string, innerHtml: string, classList: seq<string>)
      ensures this.parentTag == parentTag
      ensures State() == LabelState(textContent, innerHtml, classList)
    {
      this.parentTag := parentTag;
      this.textContent := textContent;
      this.innerHtml := innerHtml;
      this.classList := classList;
    }

    function State(): LabelState
      reads this
    {
      LabelState(textContent, innerHtml, classList)
    }

    /** The callback run for one selected `<strong>`. */
    method Decorate()
      modifies this
      ensures State() == Iconize(old(State()))
    {
      var key := Trim(textContent);
      if key in FieldIconTable {
        if IconizedClass !in classList {
          var icon := FieldIconTable[key];
          innerHtml := IconSpan(icon) + innerHtml;
          textContent := icon + " " + textContent;
          classList := AddClass(classList, IconizedClass);
        }
      }
    }

    /** The pass's visit of this element: decorated only if its parent is a `p` or an `li`. */
    method Visit()
      modifies this
      ensures State() == AfterPass(parentTag, old(State()))
    {
      if parentTag in LabelParents {
        Decorate();
      }
    }
  }

  /** What the pass leaves of a `<strong>` that was in state `before`: only those whose parent is a `p` or an `li` are looked at. */
  function AfterPass(parentTag: string, before: LabelState): LabelState {
    if parentTag in LabelParents then Iconize(before) else before
  }

  /** The pass over every `<strong>` of the page. */
  method IconizeFields(strongs: seq<StrongElement>)
    requires forall i, j :: 0 <= i < j < |strongs| ==> strongs[i] != strongs[j]
    modifies set s | s in strongs
    ensures forall k :: 0 <= k < |strongs| ==>
      strongs[k].State() == AfterPass(strongs[k].parentTag, old(strongs[k].State()))
  {
    for i := 0 to |strongs|
      invariant forall k :: 0 <= k < i ==>
        strongs[k].State() == AfterPass(strongs[k].parentTag, old(strongs[k].State()))
      invariant forall k :: i <= k < |strongs| ==> strongs[k].State() == old(strongs[k].State())
    {
      strongs[i].Visit();
    }
  }
}
