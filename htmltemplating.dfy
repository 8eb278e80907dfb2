/**
 * The string side of the HTML template handler: where children go in a
 * block's markup, the markup of a new page's root, the textual escape of
 * blreML tags before the browser parses a template, the fold of an edit
 * form into template data, and the list of block types to load.
 */
module HtmlTemplating {
  import opened Wrappers
  import opened Strings
  import opened EventManager
  import opened Json

  // ---------------------------------------------------------------------
  // Selectors and markers
  // ---------------------------------------------------------------------

  const BaseId: string := "blre-block-"
  const BlockClass: string := "blre-block"
  const RootClass: string := "blre-root"
  const HasChildrenClass: string := "blre-has-children"

  /** The comment pair that marks where a block's children are written. */
  const ChildrenOpen: string := "<!--[[[-->"
  const ChildrenClose: string := "<!--]]]-->"

  /** The opening marker occurs before a closing one, so a children region exists. */
  predicate HasChildrenRegion(html: string)
  {
    exists i, j :: 0 <= i <= j <= |html| && OccursAt(html, ChildrenOpen, i)
                   && OccursAt(html, ChildrenClose, j) && i + |ChildrenOpen| <= j
  }

  /**
   * insertChildrenHtml: the global, greedy replace of
   * `<!--[[[-->[\s\S]*<!--]]]-->`. The one match runs from the first
   * opening marker to the last closing marker after it; nothing follows it
   * that could match again.
   */
  function InsertChildrenHtml(html: string, children: string): (r: string)
  {
    match (IndexOf(html, ChildrenOpen), LastIndexOf(html, ChildrenClose))
    case (Some(i), Some(j)) =>
      if i + |ChildrenOpen| <= j && j + |ChildrenClose| <= |html| then SplicedAt(html, i, j, children) else html
    case _ => html
  }

  /**
   * The region from the opening marker at `i` to the end of the closing
   * marker at `j` replaced by `children`, whose `$` patterns expand against
   * that region and the text around it, as String.prototype.replace does.
   */
  function SplicedAt(html: string, i: nat, j: nat, children: string): string
    requires i <= j && j + |ChildrenClose| <= |html|
  {
    var after := html[j + |ChildrenClose|..];
    html[..i] + Substitution(children, html[i..j + |ChildrenClose|], html[..i], after) + after
  }

  /** Children's markup without `$` patterns is spliced in literally. */
  lemma SplicedAtPlain(html: string, i: nat, j: nat, children: string)
    requires i <= j && j + |ChildrenClose| <= |html|
    requires Plain(children)
    ensures SplicedAt(html, i, j, children) == html[..i] + children + html[j + |ChildrenClose|..]
  {
    SubstitutionPlain(children, html[i..j + |ChildrenClose|], html[..i], html[j + |ChildrenClose|..]);
  }

  /** Without a children region the markup is returned as it is. */
  lemma InsertWithoutRegion(html: string, children: string)
    requires !HasChildrenRegion(html)
    ensures InsertChildrenHtml(html, children) == html
  {
  }

  /**
   * With a children region, the text from the first opening marker to the
   * last closing marker is replaced by the children's markup; the text
   * before and after is kept.
   */
  lemma InsertWithRegion(html: string, children: string) returns (i: nat, j: nat)
    requires HasChildrenRegion(html)
    ensures OccursAt(html, ChildrenOpen, i) && forall k :: 0 <= k < i ==> !OccursAt(html, ChildrenOpen, k)
    ensures OccursAt(html, ChildrenClose, j) && forall k :: j < k ==> !OccursAt(html, ChildrenClose, k)
    ensures i + |ChildrenOpen| <= j && j + |ChildrenClose| <= |html|
    ensures InsertChildrenHtml(html, children) == SplicedAt(html, i, j, children)
    ensures Plain(children) ==>
              InsertChildrenHtml(html, children) == html[..i] + children + html[j + |ChildrenClose|..]
  {
    var i0, j0 :| 0 <= i0 <= j0 <= |html| && OccursAt(html, ChildrenOpen, i0)
                  && OccursAt(html, ChildrenClose, j0) && i0 + |ChildrenOpen| <= j0;
    IndexOfSpec(html, ChildrenOpen);
    LastIndexOfSpec(html, ChildrenClose);
    i := IndexOf(html, ChildrenOpen).value;
    j := LastIndexOf(html, ChildrenClose).value;
    assert i <= i0 && j0 <= j;
    if Plain(children) {
      SplicedAtPlain(html, i, j, children);
    }
  }

  // ---------------------------------------------------------------------
  // The root of a new page
  // ---------------------------------------------------------------------

  function Spaces(n: nat): (r: string)
    ensures |r| == n && forall k :: 0 <= k < n ==> r[k] == ' '
  {
    seq(n, _ => ' ')
  }

  /** The markup of getRootHtml before its marker pair. */
  const RootPrefix: string :=
    "<div id=\"" + BaseId + "1\" class=\"" + BlockClass + " " + RootClass + " " + HasChildrenClass + "\">"
    + "\n\n" + Spaces(28)

  /** The markup of getRootHtml after its marker pair. */
  const RootSuffix: string := "\n \n" + Spaces(20) + "</div>"

  /** getRootHtml: block 1, with the root and has-children classes and one empty children region. */
  const RootHtml: string := RootPrefix + ChildrenOpen + ChildrenClose + RootSuffix

  /** A character of a concatenation past its first part is a character of the second. */
  lemma CharOfSecond(u: string, w: string, k: nat)
    requires |u| <= k < |u| + |w|
    ensures (u + w)[k] == w[k - |u|]
    ensures (u + w)[k] in w
  {
  }

  /** An occurrence of a marker puts `<!` at its start. */
  lemma MarkerStart(t: string, m: string, k: int)
    requires m == ChildrenOpen || m == ChildrenClose
    ensures OccursAt(t, m, k) ==> t[k] == '<' && t[k + 1] == '!'
  {
    if OccursAt(t, m, k) {
      assert t[k..k + |m|][0] == t[k] && t[k..k + |m|][1] == t[k + 1];
    }
  }

  lemma RootMarkers()
    ensures OccursAt(RootHtml, ChildrenOpen, |RootPrefix|)
    ensures OccursAt(RootHtml, ChildrenClose, |RootPrefix| + |ChildrenOpen|)
  {
    var a := |RootPrefix|;
    assert RootHtml[a..a + 10] == ChildrenOpen;
    assert RootHtml[a + 10..a + 20] == ChildrenClose;
  }

  lemma NoOpenBeforeRoot(k: nat)
    requires k < |RootPrefix|
    ensures !OccursAt(RootHtml, ChildrenOpen, k)
  {
    var a := |RootPrefix|;
    assert '!' !in RootPrefix;
    assert RootPrefix[a - 1] == ' ';
    assert RootHtml == RootPrefix + (ChildrenOpen + ChildrenClose + RootSuffix);
    if k + 1 < a {
      assert RootHtml[k + 1] == RootPrefix[k + 1];
    } else {
      assert RootHtml[k] == RootPrefix[a - 1];
    }
    MarkerStart(RootHtml, ChildrenOpen, k);
  }

  lemma NoCloseAfterRoot(k: nat)
    requires |RootPrefix| + |ChildrenOpen| < k
    ensures !OccursAt(RootHtml, ChildrenClose, k)
  {
    var head := RootPrefix + ChildrenOpen + ChildrenClose[..2];
    var tail := ChildrenClose[2..] + RootSuffix;
    assert RootHtml == head + tail;
    assert '!' !in tail;
    if k + 1 < |RootHtml| {
      CharOfSecond(head, tail, k + 1);
    }
    MarkerStart(RootHtml, ChildrenClose, k);
  }

  /**
   * Inserting children into the root markup writes them once, between its
   * prefix and suffix; their `$` patterns expand against the empty marker
   * pair, the prefix and the suffix.
   */
  lemma InsertIntoRoot(children: string)
    ensures InsertChildrenHtml(RootHtml, children)
            == RootPrefix + Substitution(children, ChildrenOpen + ChildrenClose, RootPrefix, RootSuffix) + RootSuffix
    ensures Plain(children) ==> InsertChildrenHtml(RootHtml, children) == RootPrefix + children + RootSuffix
  {
    var a := |RootPrefix|;
    RootMarkers();
    forall k | 0 <= k < a
      ensures !OccursAt(RootHtml, ChildrenOpen, k)
    {
      NoOpenBeforeRoot(k);
    }
    forall k | a + 10 < k
      ensures !OccursAt(RootHtml, ChildrenClose, k)
    {
      NoCloseAfterRoot(k);
    }
    var i, j := InsertWithRegion(RootHtml, children);
    assert i == a && j == a + 10;
    assert RootHtml[..a] == RootPrefix;
    assert RootHtml[a..a + 20] == ChildrenOpen + ChildrenClose;
    assert RootHtml[a + 20..] == RootSuffix;
  }

  // ---------------------------------------------------------------------
  // The escape pass of _translateBlreML
  // ---------------------------------------------------------------------

  /** One `blreReplaceAll(search, replacement)` of the chain. */
  datatype Rewrite = Rewrite(search: string, replacement: string)

  /** The blreReplaceAll calls of the chain, in turn, left to right. */
  function RunChain(t: string, steps: seq<Rewrite>): string
    decreases |steps|
  {
    if steps == [] then t
    else RunChain(BlreReplaceAll(t, steps[0].search, steps[0].replacement), steps[1..])
  }

  /** No replacement of the chain holds a `$` pattern. */
  predicate PlainSteps(steps: seq<Rewrite>)
  {
    forall k :: 0 <= k < |steps| ==> Plain(steps[k].replacement)
  }

  /** The rewrites applied in turn, left to right, each replacement written literally. */
  function Apply(t: string, steps: seq<Rewrite>): string
    decreases |steps|
  {
    if steps == [] then t
    else Apply(ReplaceAll(t, steps[0].search, steps[0].replacement), steps[1..])
  }

  /** The blreML tag names the escape rewrites. */
  const ContentTag: string := "content"
  const ChildrenTag: string := "children"
  const LoadBlockTag: string := "loadblock"
  const IsTagAttribute: string := "data-blre-is-tag"
  /** `classes.blockLoader` is not among the selectors, so the template string writes "undefined". */
  const BlockLoaderClass: string := "undefined"

  /** The start of an opening tag, `<name`, and a closing tag, `</name>`. */
  function OpenTag(name: string): string
  {
    "<" + name
  }

  function CloseTag(name: string): string
  {
    "</" + name + ">"
  }

  lemma OpenTagChars(name: string)
    ensures var r := OpenTag(name); |r| == |name| + 1 && r[0] == '<' && r[1..] == name
  {
  }

  lemma CloseTagChars(name: string)
    ensures var r := CloseTag(name);
            |r| == |name| + 3 && r[0] == '<' && r[1] == '/' && r[2..|r| - 1] == name && r[|r| - 1] == '>'
  {
    var r := CloseTag(name);
    assert r[2..|r| - 1] == name;
  }

  const TemplateSpan: string := "<span" + " class=\"blre-template\" "
  const ChildrenSpan: string := "<span" + " class=\"blre-children\">&amp;&amp;&amp;"
  const SpanClose: string := "</span>"
  const ChildrenSentinel: string := SpanClose + ("<span" + ">&&&") + SpanClose
  const LoaderSpan: string := "<span" + " class=\"" + BlockClass + " " + BlockLoaderClass + "\" "
  const DivClose: string := "</div>"

  /** The div that stands in for a table tag, carrying the tag's name. */
  function TagDiv(tag: string): string
  {
    "<div" + " " + IsTagAttribute + "=\"" + tag + "\" "
  }

  /** The rewrites of the blreML tags proper, opening then closing: the first three lines of the chain. */
  const ContentSteps: seq<Rewrite> := [Rewrite(OpenTag(ContentTag), TemplateSpan), Rewrite(CloseTag(ContentTag), SpanClose)]
  const ChildrenSteps: seq<Rewrite> :=
    [Rewrite(OpenTag(ChildrenTag) + ">", ChildrenSpan), Rewrite(CloseTag(ChildrenTag), ChildrenSentinel)]
  const LoaderSteps: seq<Rewrite> := [Rewrite(OpenTag(LoadBlockTag), LoaderSpan), Rewrite(CloseTag(LoadBlockTag), SpanClose)]
  const BlreMLSteps: seq<Rewrite> := ContentSteps + ChildrenSteps + LoaderSteps

  /** One line of the table part of the chain: an opening tag, then a closing tag, each turned into a div. */
  function TagPair(open: string, close: string): seq<Rewrite>
  {
    [Rewrite(OpenTag(open), TagDiv(open)), Rewrite(CloseTag(close), DivClose)]
  }

  /** The table lines in turn, each naming the tag it opens and the tag it closes. */
  function TableSteps(tags: seq<(string, string)>): (r: seq<Rewrite>)
    ensures |r| == 2 * |tags|
    decreases |tags|
  {
    if tags == [] then [] else TagPair(tags[0].0, tags[0].1) + TableSteps(tags[1..])
  }

  /** The table lines as written: the tbody, thead and th lines close `tr`. */
  const TableTagsAsWritten: seq<(string, string)> :=
    [("table", "table"), ("tbody", "tr"), ("thead", "tr"), ("tr", "tr"), ("td", "td"), ("th", "tr")]

  /** The table lines with each opening tag's own closing tag. */
  const TableTags: seq<(string, string)> :=
    [("table", "table"), ("tbody", "tbody"), ("thead", "thead"), ("tr", "tr"), ("td", "td"), ("th", "th")]

  const EscapeStepsAsWritten: seq<Rewrite> := BlreMLSteps + TableSteps(TableTagsAsWritten)
  const EscapeSteps: seq<Rewrite> := BlreMLSteps + TableSteps(TableTags)

  /** The escape of a block template as written (after trim). */
  function EscapeBlreMLAsWritten(html: string): string
  {
    RunChain(Trim(html), EscapeStepsAsWritten)
  }

  /** The escape of a block template (after trim). */
  function EscapeBlreML(html: string): string
  {
    RunChain(Trim(html), EscapeSteps)
  }

  /** A chain whose replacements hold no `$` pattern splices them literally. */
  lemma {:induction false} RunChainPlain(t: string, steps: seq<Rewrite>)
    requires PlainSteps(steps)
    decreases |steps|
    ensures RunChain(t, steps) == Apply(t, steps)
  {
    if steps != [] {
      BlreReplaceAllPlain(t, steps[0].search, steps[0].replacement);
      assert PlainSteps(steps[1..]) by {
        forall k | 0 <= k < |steps| - 1
          ensures Plain(steps[1..][k].replacement)
        {
          assert steps[1..][k] == steps[k + 1];
        }
      }
      RunChainPlain(BlreReplaceAll(t, steps[0].search, steps[0].replacement), steps[1..]);
    }
  }

  lemma PlainStepsAppend(a: seq<Rewrite>, b: seq<Rewrite>)
    requires PlainSteps(a) && PlainSteps(b)
    ensures PlainSteps(a + b)
  {
    forall k | 0 <= k < |a + b|
      ensures Plain((a + b)[k].replacement)
    {
      if k >= |a| {
        assert (a + b)[k] == b[k - |a|];
      }
    }
  }

  lemma {:induction false} TableStepsPlain(tags: seq<(string, string)>)
    requires forall k :: 0 <= k < |tags| ==> '$' !in tags[k].0
    decreases |tags|
    ensures PlainSteps(TableSteps(tags))
  {
    if tags != [] {
      DollarFreePlain(TagDiv(tags[0].0));
      DollarFreePlain(DivClose);
      assert PlainSteps(TagPair(tags[0].0, tags[0].1));
      assert forall k :: 0 <= k < |tags| - 1 ==> tags[1..][k] == tags[k + 1];
      TableStepsPlain(tags[1..]);
      PlainStepsAppend(TagPair(tags[0].0, tags[0].1), TableSteps(tags[1..]));
    }
  }

  lemma ContentStepsPlain()
    ensures PlainSteps(ContentSteps)
  {
    DollarFreePlain(TemplateSpan);
    DollarFreePlain(SpanClose);
  }

  lemma ChildrenSpanPlain()
    ensures Plain(ChildrenSpan)
  {
    DollarFreePlain(ChildrenSpan);
  }

  lemma ChildrenSentinelPlain()
    ensures Plain(ChildrenSentinel)
  {
    DollarFreePlain(ChildrenSentinel);
  }

  lemma ChildrenStepsPlain()
    ensures PlainSteps(ChildrenSteps)
  {
    ChildrenSpanPlain();
    ChildrenSentinelPlain();
  }

  lemma LoaderStepsPlain()
    ensures PlainSteps(LoaderSteps)
  {
    DollarFreePlain(LoaderSpan);
    DollarFreePlain(SpanClose);
  }

  lemma BlreMLStepsPlain()
    ensures PlainSteps(BlreMLSteps)
  {
    ContentStepsPlain();
    ChildrenStepsPlain();
    LoaderStepsPlain();
    PlainStepsAppend(ContentSteps, ChildrenSteps);
    PlainStepsAppend(ContentSteps + ChildrenSteps, LoaderSteps);
  }

  /** The table tag names hold no `$`. */
  lemma TableTagsDollarFree()
    ensures forall k :: 0 <= k < |TableTags| ==> '$' !in TableTags[k].0
    ensures forall k :: 0 <= k < |TableTagsAsWritten| ==> '$' !in TableTagsAsWritten[k].0
  {
    assert forall k :: 0 <= k < |TableTags| ==> TableTags[k].0 == TableTagsAsWritten[k].0;
    forall k | 0 <= k < |TableTags|
      ensures '$' !in TableTags[k].0
    {
      assert TableTags[k].0 in ["table", "tbody", "thead", "tr", "td", "th"];
    }
  }

  /**
   * No replacement of the escape chain holds a `$` pattern, so each
   * blreReplaceAll of the chain splices its replacement literally.
   */
  lemma EscapeStepsPlain()
    ensures PlainSteps(EscapeSteps) && PlainSteps(EscapeStepsAsWritten)
  {
    BlreMLStepsPlain();
    TableTagsDollarFree();
    TableStepsPlain(TableTags);
    TableStepsPlain(TableTagsAsWritten);
    PlainStepsAppend(BlreMLSteps, TableSteps(TableTags));
    PlainStepsAppend(BlreMLSteps, TableSteps(TableTagsAsWritten));
  }

  /** The escape, with and without the table-line slips, is the literal chain. */
  lemma EscapeIsLiteral(html: string)
    ensures EscapeBlreML(html) == Apply(Trim(html), EscapeSteps)
    ensures EscapeBlreMLAsWritten(html) == Apply(Trim(html), EscapeStepsAsWritten)
  {
    EscapeStepsPlain();
    RunChainPlain(Trim(html), EscapeSteps);
    RunChainPlain(Trim(html), EscapeStepsAsWritten);
  }

  /** How the tags the replacements write begin: `<sp`, `</s`, `<di` or `</d` (span and div, opening or closing). */
  predicate IsLead(a: char, b: char, c: char)
  {
    a == '<' && ((b == 's' && c == 'p') || (b == '/' && (c == 's' || c == 'd')) || (b == 'd' && c == 'i'))
  }

  /** Every `<` of `rep` starts one of the written tags. */
  predicate LedBy(rep: string)
  {
    forall y :: 0 <= y < |rep| && rep[y] == '<' ==> y + 2 < |rep| && IsLead(rep[y], rep[y + 1], rep[y + 2])
  }

  /** A tag search that no replacement can write the start of. */
  predicate GoodSearch(p: string)
  {
    IsTag(p) && |p| >= 3 && !IsLead(p[0], p[1], p[2])
  }

  /** A rewrite of a tag the replacements cannot write, by a replacement that starts a tag. */
  predicate GoodStep(st: Rewrite)
  {
    GoodSearch(st.search) && |st.replacement| >= 1 && st.replacement[0] == '<' && LedBy(st.replacement)
  }

  predicate GoodSteps(steps: seq<Rewrite>)
  {
    forall i :: 0 <= i < |steps| ==> GoodStep(steps[i])
  }

  /** A tag name starting with neither `s`, `d` nor `/`, without `<`: its searches cannot be written by a replacement. */
  predicate TagName(name: string)
  {
    |name| >= 2 && '<' !in name && name[0] != 's' && name[0] != 'd' && name[0] != '/'
  }

  lemma NameSearches(name: string)
    requires TagName(name)
    ensures GoodSearch(OpenTag(name))
    ensures GoodSearch(OpenTag(name) + ">")
    ensures GoodSearch(CloseTag(name))
  {
    var o := OpenTag(name);
    var c := CloseTag(name);
    OpenTagChars(name);
    CloseTagChars(name);
    assert (o + ">")[1..] == name + ">";
    assert c[1..] == "/" + (name + ">");
    assert '<' !in name + ">";
    assert '<' !in "/" + (name + ">");
    assert IsTag(o);
    assert IsTag(o + ">");
    assert IsTag(c);
    assert o[1] == o[1..][0] == name[0];
    assert (o + ">")[1] == o[1];
    assert c[2] == c[2..|c| - 1][0] == name[0];
  }

  /** A written tag followed by attributes: its only `<` is the first character. */
  lemma LeadThen(lead: string, rest: string)
    requires |lead| >= 3 && IsLead(lead[0], lead[1], lead[2])
    requires forall k | 1 <= k < |lead| :: lead[k] != '<'
    requires '<' !in rest
    ensures LedBy(lead + rest)
  {
    var w := lead + rest;
    forall y | 1 <= y < |w|
      ensures w[y] != '<'
    {
      if y >= |lead| {
        CharOfSecond(lead, rest, y);
      }
    }
  }

  /** A replacement made of written tags put side by side. */
  lemma LedConcat(a: string, b: string)
    requires LedBy(a) && LedBy(b)
    ensures LedBy(a + b)
  {
    var w := a + b;
    forall y | 0 <= y < |w|
      ensures w[y] == '<' ==> y + 2 < |w| && IsLead(w[y], w[y + 1], w[y + 2])
    {
      if y >= |a| {
        CharOfSecond(a, b, y);
        if b[y - |a|] == '<' {
          CharOfSecond(a, b, y + 1);
          CharOfSecond(a, b, y + 2);
        }
      }
    }
  }

  lemma SpanLed(rest: string)
    requires '<' !in rest
    ensures LedBy("<span" + rest)
  {
    LeadThen("<span", rest);
  }

  lemma TagDivLed(tag: string)
    requires '<' !in tag
    ensures LedBy(TagDiv(tag)) && TagDiv(tag)[0] == '<'
  {
    var rest := " " + IsTagAttribute + "=\"" + tag + "\" ";
    assert TagDiv(tag) == "<div" + rest;
    LeadThen("<div", rest);
  }

  lemma CloseLed(lead: string)
    requires lead == SpanClose || lead == DivClose
    ensures LedBy(lead)
  {
    LeadThen(lead, "");
    assert lead + "" == lead;
  }

  lemma TemplateSpansLed()
    ensures LedBy(TemplateSpan) && LedBy(ChildrenSpan)
  {
    SpanLed(" class=\"blre-template\" ");
    SpanLed(" class=\"blre-children\">&amp;&amp;&amp;");
  }

  lemma LoaderSpanLed()
    ensures LedBy(LoaderSpan)
  {
    SpanLed(" class=\"" + BlockClass + " " + BlockLoaderClass + "\" ");
  }

  lemma ChildrenSentinelLed()
    ensures LedBy(ChildrenSentinel)
  {
    SpanLed(">&&&");
    CloseLed(SpanClose);
    LedConcat(SpanClose, "<span" + ">&&&");
    LedConcat(SpanClose + ("<span" + ">&&&"), SpanClose);
  }

  lemma GoodStepsConcat(a: seq<Rewrite>, b: seq<Rewrite>)
    requires GoodSteps(a) && GoodSteps(b)
    ensures GoodSteps(a + b)
  {
    forall i | 0 <= i < |a + b|
      ensures GoodStep((a + b)[i])
    {
      if i >= |a| {
        assert (a + b)[i] == b[i - |a|];
      }
    }
  }

  lemma TagPairGood(open: string, close: string)
    requires TagName(open) && TagName(close)
    ensures GoodSteps(TagPair(open, close))
  {
    NameSearches(open);
    NameSearches(close);
    TagDivLed(open);
    CloseLed(DivClose);
  }

  lemma {:induction false} TableStepsGood(tags: seq<(string, string)>)
    requires forall k | 0 <= k < |tags| :: TagName(tags[k].0) && TagName(tags[k].1)
    ensures GoodSteps(TableSteps(tags))
    decreases |tags|
  {
    if tags != [] {
      TagPairGood(tags[0].0, tags[0].1);
      TableStepsGood(tags[1..]);
      GoodStepsConcat(TagPair(tags[0].0, tags[0].1), TableSteps(tags[1..]));
    }
  }

  lemma ContentStepsGood()
    ensures GoodSteps(ContentSteps)
  {
    TemplateSpansLed();
    CloseLed(SpanClose);
    NameSearches(ContentTag);
  }

  lemma ChildrenStepsGood()
    ensures GoodSteps(ChildrenSteps)
  {
    TemplateSpansLed();
    ChildrenSentinelLed();
    NameSearches(ChildrenTag);
  }

  lemma LoaderStepsGood()
    ensures GoodSteps(LoaderSteps)
  {
    LoaderSpanLed();
    CloseLed(SpanClose);
    NameSearches(LoadBlockTag);
  }

  lemma BlreMLStepsGood()
    ensures GoodSteps(BlreMLSteps)
  {
    ContentStepsGood();
    ChildrenStepsGood();
    LoaderStepsGood();
    GoodStepsConcat(ContentSteps, ChildrenSteps);
    GoodStepsConcat(ContentSteps + ChildrenSteps, LoaderSteps);
  }

  lemma TableNames()
    ensures forall k | 0 <= k < |TableTags| :: TagName(TableTags[k].0) && TagName(TableTags[k].1)
  {
    assert TagName("table") && TagName("tbody") && TagName("thead");
    assert TagName("tr") && TagName("td") && TagName("th");
  }

  /** The chain as written closes only table, tr and td among the table tags. */
  lemma TableNamesAsWritten()
    ensures forall k | 0 <= k < |TableTagsAsWritten| ::
      && TagName(TableTagsAsWritten[k].0) && TagName(TableTagsAsWritten[k].1)
      && (TableTagsAsWritten[k].1[1] == 'a' || TableTagsAsWritten[k].1[1] == 'r' || TableTagsAsWritten[k].1[1] == 'd')
  {
    assert TagName("table") && TagName("tbody") && TagName("thead");
    assert TagName("tr") && TagName("td") && TagName("th");
  }

  lemma EscapeStepsGood()
    ensures GoodSteps(EscapeSteps) && GoodSteps(EscapeStepsAsWritten)
  {
    BlreMLStepsGood();
    TableNames();
    TableNamesAsWritten();
    TableStepsGood(TableTags);
    TableStepsGood(TableTagsAsWritten);
    GoodStepsConcat(BlreMLSteps, TableSteps(TableTags));
    GoodStepsConcat(BlreMLSteps, TableSteps(TableTagsAsWritten));
  }

  // ---------------------------------------------------------------------
  // What the escape leaves in the text
  // ---------------------------------------------------------------------

  lemma {:induction false} ApplyAppend(t: string, a: seq<Rewrite>, b: seq<Rewrite>)
    ensures Apply(t, a + b) == Apply(Apply(t, a), b)
    decreases |a|
  {
    if a != [] {
      assert (a + b)[0] == a[0] && (a + b)[1..] == a[1..] + b;
      ApplyAppend(ReplaceAll(t, a[0].search, a[0].replacement), a[1..], b);
    } else {
      assert a + b == b;
    }
  }

  /** A replacement made of written tags cannot start an occurrence of a search no replacement can write. */
  lemma ShieldsFromLead(rep: string, p: string)
    requires LedBy(rep) && GoodSearch(p)
    ensures Shields(rep, p)
  {
    forall y | 0 <= y < |rep|
      ensures ShieldsAt(rep, p, y)
    {
      if rep[y] == '<' {
        var m := if |p| < |rep| - y then |p| else |rep| - y;
        assert p[..3] != rep[y..y + 3] by {
          assert p[..3][1] == p[1] && rep[y..y + 3][1] == rep[y + 1];
          assert p[..3][2] == p[2] && rep[y..y + 3][2] == rep[y + 2];
          assert p[..3][0] == p[0] && rep[y..y + 3][0] == rep[y];
        }
        SliceDiffers(p, rep, y, 3, m);
      }
    }
  }

  /** Good rewrites never write a search no replacement can write where it was absent. */
  lemma {:induction false} KeepsAbsentThrough(t: string, steps: seq<Rewrite>, p: string)
    requires GoodSteps(steps) && GoodSearch(p) && !Occurs(t, p)
    ensures !Occurs(Apply(t, steps), p)
    decreases |steps|
  {
    if steps != [] {
      var st := steps[0];
      ShieldsFromLead(st.replacement, p);
      ReplaceAllKeepsTagAbsent(t, st.search, st.replacement, p);
      KeepsAbsentThrough(ReplaceAll(t, st.search, st.replacement), steps[1..], p);
    }
  }

  /** After good rewrites, none of their searches occurs in the text any more. */
  lemma {:induction false} NoSearchRemains(t: string, steps: seq<Rewrite>, i: nat)
    requires GoodSteps(steps) && i < |steps|
    ensures !Occurs(Apply(t, steps), steps[i].search)
    decreases |steps|
  {
    var st := steps[0];
    var u := ReplaceAll(t, st.search, st.replacement);
    if i == 0 {
      ShieldsFromLead(st.replacement, st.search);
      ReplaceAllRemovesTag(t, st.search, st.replacement);
      KeepsAbsentThrough(u, steps[1..], st.search);
    } else {
      assert steps[1..][i - 1] == steps[i];
      NoSearchRemains(u, steps[1..], i - 1);
    }
  }

  /** Two tags that differ before either ends. */
  predicate Apart(s: string, q: string)
  {
    var m := if |s| < |q| then |s| else |q|;
    s[..m] != q[..m]
  }

  /** Tag searches all apart from `q`. */
  predicate AllApart(steps: seq<Rewrite>, q: string)
  {
    forall i :: 0 <= i < |steps| ==> IsTag(steps[i].search) && Apart(steps[i].search, q)
  }

  /** An occurrence of a tag every search is apart from survives the rewrites; `y` is where it lands. */
  lemma {:induction false} PresentThrough(t: string, steps: seq<Rewrite>, q: string, x: nat)
    returns (y: int)
    requires AllApart(steps, q) && IsTag(q) && OccursAt(t, q, x)
    ensures OccursAt(Apply(t, steps), q, y)
    decreases |steps|
  {
    if steps == [] {
      y := x;
    } else {
      var st := steps[0];
      var z := ReplaceAllKeepsTagPresent(t, st.search, st.replacement, q, x);
      assert AllApart(steps[1..], q) by {
        forall i | 0 <= i < |steps| - 1
          ensures IsTag(steps[1..][i].search) && Apart(steps[1..][i].search, q)
        {
          assert steps[1..][i] == steps[i + 1];
        }
      }
      y := PresentThrough(ReplaceAll(t, st.search, st.replacement), steps[1..], q, z);
    }
  }


  lemma DifferAt(s: string, q: string, k: nat)
    requires k < |s| && k < |q| && s[k] != q[k]
    ensures Apart(s, q)
  {
    var m := if |s| < |q| then |s| else |q|;
    assert s[..m][k] == s[k] && q[..m][k] == q[k];
  }

  /** An opening search and a closing tag differ at their second character. */
  lemma OpenApartClose(n: string, q: string)
    requires TagName(n) && |q| >= 1
    ensures Apart(OpenTag(n), CloseTag(q)) && Apart(OpenTag(n) + ">", CloseTag(q))
  {
    var o := OpenTag(n);
    OpenTagChars(n);
    CloseTagChars(q);
    assert o[1] == o[1..][0] == n[0];
    DifferAt(o, CloseTag(q), 1);
    DifferAt(o + ">", CloseTag(q), 1);
  }

  /** Two closing tags whose names differ at `k`. */
  lemma CloseApart(n: string, q: string, k: nat)
    requires k < |n| && k < |q| && n[k] != q[k]
    ensures Apart(CloseTag(n), CloseTag(q))
  {
    var c, d := CloseTag(n), CloseTag(q);
    CloseTagChars(n);
    CloseTagChars(q);
    assert c[k + 2] == c[2..|c| - 1][k] == n[k];
    assert d[k + 2] == d[2..|d| - 1][k] == q[k];
    DifferAt(c, d, k + 2);
  }

  lemma AllApartConcat(a: seq<Rewrite>, b: seq<Rewrite>, q: string)
    requires AllApart(a, q) && AllApart(b, q)
    ensures AllApart(a + b, q)
  {
    forall i | 0 <= i < |a + b|
      ensures IsTag((a + b)[i].search) && Apart((a + b)[i].search, q)
    {
      if i >= |a| {
        assert (a + b)[i] == b[i - |a|];
      }
    }
  }

  lemma {:induction false} TableStepsApart(tags: seq<(string, string)>, q: string)
    requires forall k | 0 <= k < |tags| :: TagName(tags[k].0) && TagName(tags[k].1)
    requires forall k | 0 <= k < |tags| :: Apart(OpenTag(tags[k].0), q) && Apart(CloseTag(tags[k].1), q)
    ensures AllApart(TableSteps(tags), q)
    decreases |tags|
  {
    if tags != [] {
      TagPairGood(tags[0].0, tags[0].1);
      TableStepsApart(tags[1..], q);
      AllApartConcat(TagPair(tags[0].0, tags[0].1), TableSteps(tags[1..]), q);
    }
  }

  /**
   * A closing tag `</t…>` whose second letter is none of `a`, `r`, `d` is
   * apart from every search of the chain as written, which closes only
   * content, children, loadblock, table, tr and td.
   */
  lemma AsWrittenApart(q: string)
    requires |q| >= 2 && q[0] == 't' && q[1] != 'a' && q[1] != 'r' && q[1] != 'd'
    ensures AllApart(EscapeStepsAsWritten, CloseTag(q))
  {
    var c := CloseTag(q);
    TableNamesAsWritten();
    forall k | 0 <= k < |TableTagsAsWritten|
      ensures Apart(OpenTag(TableTagsAsWritten[k].0), c) && Apart(CloseTag(TableTagsAsWritten[k].1), c)
    {
      var (o, d) := TableTagsAsWritten[k];
      OpenApartClose(o, q);
      CloseApart(d, q, 1);
    }
    TableStepsApart(TableTagsAsWritten, c);
    BlreMLApart(q);
    AllApartConcat(BlreMLSteps, TableSteps(TableTagsAsWritten), c);
  }

  lemma OpenCloseApart(steps: seq<Rewrite>, n: string, q: string)
    requires TagName(n) && |q| >= 1 && n[0] != q[0]
    requires |steps| == 2 && steps[1].search == CloseTag(n)
    requires steps[0].search == OpenTag(n) || steps[0].search == OpenTag(n) + ">"
    ensures AllApart(steps, CloseTag(q))
  {
    NameSearches(n);
    OpenApartClose(n, q);
    CloseApart(n, q, 0);
  }

  lemma BlreMLApart(q: string)
    requires |q| >= 1 && q[0] == 't'
    ensures AllApart(BlreMLSteps, CloseTag(q))
  {
    var c := CloseTag(q);
    OpenCloseApart(ContentSteps, ContentTag, q);
    OpenCloseApart(ChildrenSteps, ChildrenTag, q);
    OpenCloseApart(LoaderSteps, LoadBlockTag, q);
    AllApartConcat(ContentSteps, ChildrenSteps, c);
    AllApartConcat(ContentSteps + ChildrenSteps, LoaderSteps, c);
  }

  /**
   * The chain as written leaves `</tbody>`, `</thead>` and `</th>` in the
   * text: an occurrence in the trimmed template is still there afterwards.
   */
  lemma AsWrittenKeepsTableCloses(html: string, q: string, x: nat)
    requires q == "tbody" || q == "thead" || q == "th"
    requires OccursAt(Trim(html), CloseTag(q), x)
    ensures Occurs(EscapeBlreMLAsWritten(html), CloseTag(q))
  {
    EscapeIsLiteral(html);
    assert TagName(q) && q[0] == 't' && q[1] != 'a' && q[1] != 'r' && q[1] != 'd';
    AsWrittenKeepsClose(html, q, x);
  }

  /** For any closing tag `</t…>` the chain as written does not close. */
  lemma AsWrittenKeepsClose(html: string, q: string, x: nat)
    requires TagName(q) && q[0] == 't' && q[1] != 'a' && q[1] != 'r' && q[1] != 'd'
    requires OccursAt(Trim(html), CloseTag(q), x)
    ensures Occurs(EscapeBlreMLAsWritten(html), CloseTag(q))
  {
    EscapeIsLiteral(html);
    AsWrittenApart(q);
    NameSearches(q);
    var y := PresentThrough(Trim(html), EscapeStepsAsWritten, CloseTag(q), x);
  }

  /** The rewrites of the `k`-th table line sit at `2k` and `2k + 1`. */
  lemma {:induction false} TableStepsAt(tags: seq<(string, string)>, k: nat)
    requires k < |tags|
    ensures TableSteps(tags)[2 * k] == Rewrite(OpenTag(tags[k].0), TagDiv(tags[k].0))
    ensures TableSteps(tags)[2 * k + 1] == Rewrite(CloseTag(tags[k].1), DivClose)
    decreases k
  {
    var rest := TableSteps(tags[1..]);
    assert TableSteps(tags) == TagPair(tags[0].0, tags[0].1) + rest;
    if k > 0 {
      TableStepsAt(tags[1..], k - 1);
      assert tags[1..][k - 1] == tags[k];
      assert TableSteps(tags)[2 * k] == rest[2 * (k - 1)];
      assert TableSteps(tags)[2 * k + 1] == rest[2 * (k - 1) + 1];
    }
  }

  /** No search of the chain is left in an escaped template: every blreML and table tag is gone. */
  lemma EscapeRemovesSearches(html: string, i: nat)
    requires i < |EscapeSteps|
    ensures !Occurs(EscapeBlreML(html), EscapeSteps[i].search)
  {
    EscapeIsLiteral(html);
    EscapeStepsGood();
    NoSearchRemains(Trim(html), EscapeSteps, i);
  }

  /** In particular no table tag, opening or closing, is left. */
  lemma EscapeRemovesTableTags(html: string, k: nat)
    requires k < |TableTags|
    ensures !Occurs(EscapeBlreML(html), OpenTag(TableTags[k].0))
    ensures !Occurs(EscapeBlreML(html), CloseTag(TableTags[k].0))
  {
    EscapeIsLiteral(html);
    TableStepsAt(TableTags, k);
    var n := |BlreMLSteps|;
    assert EscapeSteps[n + 2 * k] == TableSteps(TableTags)[2 * k];
    assert EscapeSteps[n + 2 * k + 1] == TableSteps(TableTags)[2 * k + 1];
    assert TableTags[k].1 == TableTags[k].0;
    EscapeRemovesSearches(html, n + 2 * k);
    EscapeRemovesSearches(html, n + 2 * k + 1);
  }

  /** The closing tags the chain as written keeps are removed by the corrected chain. */
  lemma EscapeRemovesTableCloses(html: string, q: string)
    requires q == "tbody" || q == "thead" || q == "th"
    ensures !Occurs(EscapeBlreML(html), CloseTag(q))
  {
    EscapeIsLiteral(html);
    var k := if q == "tbody" then 1 else if q == "thead" then 2 else 5;
    assert TableTags[k].0 == q;
    EscapeRemovesTableTags(html, k);
  }

  /** Nor is any search of the chain as written left: every blreML tag and opening table tag is gone. */
  lemma AsWrittenRemovesSearches(html: string, i: nat)
    requires i < |EscapeStepsAsWritten|
    ensures !Occurs(EscapeBlreMLAsWritten(html), EscapeStepsAsWritten[i].search)
  {
    EscapeIsLiteral(html);
    EscapeStepsGood();
    NoSearchRemains(Trim(html), EscapeStepsAsWritten, i);
  }

  /**
   * As written, each table line removes the tag it opens and the tag it
   * closes: no `<table`, `<tbody`, `<thead`, `<tr`, `<td` or `<th` is left,
   * and no `</table>`, `</tr>` or `</td>`.
   */
  lemma AsWrittenRemovesTableTags(html: string, k: nat)
    requires k < |TableTagsAsWritten|
    ensures !Occurs(EscapeBlreMLAsWritten(html), OpenTag(TableTagsAsWritten[k].0))
    ensures !Occurs(EscapeBlreMLAsWritten(html), CloseTag(TableTagsAsWritten[k].1))
  {
    TableStepsAt(TableTagsAsWritten, k);
    var n := |BlreMLSteps|;
    assert EscapeStepsAsWritten[n + 2 * k] == TableSteps(TableTagsAsWritten)[2 * k];
    assert EscapeStepsAsWritten[n + 2 * k + 1] == TableSteps(TableTagsAsWritten)[2 * k + 1];
    AsWrittenRemovesSearches(html, n + 2 * k);
    AsWrittenRemovesSearches(html, n + 2 * k + 1);
  }


  // ---------------------------------------------------------------------
  // What the escape writes
  // ---------------------------------------------------------------------

  lemma GoodStepsSuffix(steps: seq<Rewrite>, j: nat)
    requires GoodSteps(steps) && j <= |steps|
    ensures GoodSteps(steps[j..])
  {
    var rest := steps[j..];
    forall i | 0 <= i < |rest|
      ensures GoodStep(rest[i])
    {
      assert rest[i] == steps[j + i];
    }
  }

  /** A replacement written by an earlier rewrite survives the good rewrites after it; `y` is where. */
  lemma {:induction false} ShieldedThrough(t: string, steps: seq<Rewrite>, w: string, x: nat)
    returns (y: int)
    requires GoodSteps(steps) && LedBy(w) && |w| >= 1 && w[0] == '<' && OccursAt(t, w, x)
    ensures OccursAt(Apply(t, steps), w, y)
    decreases |steps|
  {
    if steps == [] {
      y := x;
    } else {
      var st := steps[0];
      ShieldsFromLead(w, st.search);
      var z := ReplaceAllKeepsShielded(t, st.search, st.replacement, w, x);
      GoodStepsSuffix(steps, 1);
      y := ShieldedThrough(ReplaceAll(t, st.search, st.replacement), steps[1..], w, z);
    }
  }

  /**
   * A tag of the template that no earlier search of the chain can touch is
   * rewritten by its own step, and what that step writes is in the escaped
   * template.
   */
  lemma EscapeRewrites(html: string, j: nat, x: nat)
    requires j < |EscapeSteps| && AllApart(EscapeSteps[..j], EscapeSteps[j].search)
    requires OccursAt(Trim(html), EscapeSteps[j].search, x)
    ensures Occurs(EscapeBlreML(html), EscapeSteps[j].replacement)
  {
    EscapeIsLiteral(html);
    EscapeStepsGood();
    var y := RewritesThrough(Trim(html), EscapeSteps, j, x);
  }

  /** The same for the chain as written. */
  lemma AsWrittenRewrites(html: string, j: nat, x: nat)
    requires j < |EscapeStepsAsWritten| && AllApart(EscapeStepsAsWritten[..j], EscapeStepsAsWritten[j].search)
    requires OccursAt(Trim(html), EscapeStepsAsWritten[j].search, x)
    ensures Occurs(EscapeBlreMLAsWritten(html), EscapeStepsAsWritten[j].replacement)
  {
    EscapeIsLiteral(html);
    EscapeStepsGood();
    var y := RewritesThrough(Trim(html), EscapeStepsAsWritten, j, x);
  }

  /** A `<content` tag of the template leaves the template span that stands for it. */
  lemma AsWrittenWritesTemplateSpan(html: string, x: nat)
    requires OccursAt(Trim(html), OpenTag(ContentTag), x)
    ensures Occurs(EscapeBlreMLAsWritten(html), TemplateSpan)
  {
    assert EscapeStepsAsWritten[0] == Rewrite(OpenTag(ContentTag), TemplateSpan);
    assert EscapeStepsAsWritten[..0] == [];
    AsWrittenRewrites(html, 0, x);
  }

  /** The same for any good rewrites: `y` is where the `j`-th replacement lands. */
  lemma RewritesThrough(t: string, steps: seq<Rewrite>, j: nat, x: nat)
    returns (y: int)
    requires GoodSteps(steps) && j < |steps| && AllApart(steps[..j], steps[j].search)
    requires OccursAt(t, steps[j].search, x)
    ensures OccursAt(Apply(t, steps), steps[j].replacement, y)
  {
    var st := steps[j];
    var after := steps[j + 1..];
    assert steps == steps[..j] + ([st] + after);
    ApplyAppend(t, steps[..j], [st] + after);
    var x1 := PresentThrough(t, steps[..j], st.search, x);
    var u := Apply(t, steps[..j]);
    assert ([st] + after)[0] == st && ([st] + after)[1..] == after;
    var v := ReplaceAll(u, st.search, st.replacement);
    assert Apply(u, [st] + after) == Apply(v, after);
    var x2 := ReplaceAllRewritesTag(u, st.search, st.replacement, x1);
    GoodStepsSuffix(steps, j + 1);
    y := ShieldedThrough(v, after, st.replacement, x2);
  }

  lemma OpenApartOpen(a: string, b: string, i: nat)
    requires i < |a| && i < |b| && a[i] != b[i]
    ensures Apart(OpenTag(a), OpenTag(b)) && Apart(OpenTag(a) + ">", OpenTag(b))
  {
    var o, p := OpenTag(a), OpenTag(b);
    OpenTagChars(a);
    OpenTagChars(b);
    assert o[i + 1] == o[1..][i] == a[i];
    assert p[i + 1] == p[1..][i] == b[i];
    DifferAt(o, p, i + 1);
    DifferAt(o + ">", p, i + 1);
  }

  lemma CloseApartOpen(a: string, b: string)
    requires TagName(b)
    ensures Apart(CloseTag(a), OpenTag(b))
  {
    var p := OpenTag(b);
    OpenTagChars(b);
    CloseTagChars(a);
    assert p[1] == p[1..][0] == b[0];
    DifferAt(CloseTag(a), p, 1);
  }

  /** The opening tags of the blreML lines are apart from an opening tag of another first letter. */
  lemma PairApartOpen(steps: seq<Rewrite>, m: string, n: string)
    requires TagName(m) && TagName(n) && m[0] != n[0]
    requires |steps| == 2 && steps[1].search == CloseTag(m)
    requires steps[0].search == OpenTag(m) || steps[0].search == OpenTag(m) + ">"
    ensures AllApart(steps, OpenTag(n))
  {
    NameSearches(m);
    OpenApartOpen(m, n, 0);
    CloseApartOpen(m, n);
  }

  lemma BlreMLApartOpen(n: string)
    requires TagName(n) && n[0] == 't'
    ensures AllApart(BlreMLSteps, OpenTag(n))
  {
    var q := OpenTag(n);
    PairApartOpen(ContentSteps, ContentTag, n);
    PairApartOpen(ChildrenSteps, ChildrenTag, n);
    PairApartOpen(LoaderSteps, LoadBlockTag, n);
    AllApartConcat(ContentSteps, ChildrenSteps, q);
    AllApartConcat(ContentSteps + ChildrenSteps, LoaderSteps, q);
  }

  /** The first five table tags begin with `t` and differ in their second letter. */
  lemma TableLetters()
    ensures forall k | 0 <= k < 5 :: TableTags[k].0[0] == 't' && TableTags[k].1 == TableTags[k].0
    ensures forall i, k | 0 <= i < k < 5 :: TableTags[i].0[1] != TableTags[k].0[1]
  {
  }

  lemma PrefixOfConcat(pre: seq<Rewrite>, a: seq<Rewrite>, b: seq<Rewrite>)
    ensures (pre + (a + b))[..|pre| + |a|] == pre + a
  {
    assert pre + (a + b) == (pre + a) + b;
  }

  /** The table lines split after the `k`-th. */
  lemma {:induction false} TableStepsSplit(tags: seq<(string, string)>, k: nat)
    requires k <= |tags|
    ensures TableSteps(tags) == TableSteps(tags[..k]) + TableSteps(tags[k..])
    decreases k
  {
    if k == 0 {
      assert tags[..0] == [] && tags[0..] == tags;
    } else {
      var r := tags[1..];
      TableStepsSplit(r, k - 1);
      assert r[..k - 1] == tags[..k][1..];
      assert r[k - 1..] == tags[k..];
      assert tags[..k][0] == tags[0];
    }
  }

  /** The steps before the `k`-th table line: the steps before the table lines, then the first `k` lines. */
  lemma StepsBeforeLine(pre: seq<Rewrite>, tags: seq<(string, string)>, k: nat)
    requires k <= |tags|
    ensures (pre + TableSteps(tags))[..|pre| + 2 * k] == pre + TableSteps(tags[..k])
  {
    TableStepsSplit(tags, k);
    PrefixOfConcat(pre, TableSteps(tags[..k]), TableSteps(tags[k..]));
  }

  /** Table lines whose tags differ from `n` in their second letter do not touch `<n`. */
  lemma {:induction false} LinesApartOpen(tags: seq<(string, string)>, n: string)
    requires TagName(n)
    requires forall i | 0 <= i < |tags| :: TagName(tags[i].0) && TagName(tags[i].1) && tags[i].0[1] != n[1]
    ensures AllApart(TableSteps(tags), OpenTag(n))
    decreases |tags|
  {
    if tags != [] {
      var (o, c) := tags[0];
      TagPairGood(o, c);
      OpenApartOpen(o, n, 1);
      CloseApartOpen(c, n);
      LinesApartOpen(tags[1..], n);
      AllApartConcat(TagPair(o, c), TableSteps(tags[1..]), OpenTag(n));
    }
  }

  lemma LinesApart(pre: seq<Rewrite>, tags: seq<(string, string)>, k: nat)
    requires k < |tags| && TagName(tags[k].0) && AllApart(pre, OpenTag(tags[k].0))
    requires forall i | 0 <= i < k :: TagName(tags[i].0) && TagName(tags[i].1) && tags[i].0[1] != tags[k].0[1]
    ensures AllApart(pre + TableSteps(tags[..k]), OpenTag(tags[k].0))
  {
    var n, before := tags[k].0, tags[..k];
    forall i | 0 <= i < |before|
      ensures TagName(before[i].0) && TagName(before[i].1) && before[i].0[1] != n[1]
    {
      assert before[i] == tags[i];
    }
    LinesApartOpen(before, n);
    AllApartConcat(pre, TableSteps(before), OpenTag(n));
  }

  /** Before the line of the `k`-th table tag, for any but th, no search touches an occurrence of it. */
  lemma EarlierApart(k: nat)
    requires k < 5
    ensures AllApart(EscapeSteps[..|BlreMLSteps| + 2 * k], OpenTag(TableTags[k].0))
  {
    TableNames();
    TableLetters();
    BlreMLApartOpen(TableTags[k].0);
    LinesApart(BlreMLSteps, TableTags, k);
    StepsBeforeLine(BlreMLSteps, TableTags, k);
  }

  /**
   * An opening table, tbody, thead, tr or td tag of the template leaves the
   * div that carries its name in the escaped template.
   */
  lemma EscapeWritesTagDiv(html: string, k: nat, x: nat)
    requires k < 5 && OccursAt(Trim(html), OpenTag(TableTags[k].0), x)
    ensures Occurs(EscapeBlreML(html), TagDiv(TableTags[k].0))
  {
    EscapeIsLiteral(html);
    var j := |BlreMLSteps| + 2 * k;
    TableStepsAt(TableTags, k);
    assert EscapeSteps[j] == TableSteps(TableTags)[2 * k];
    EarlierApart(k);
    EscapeRewrites(html, j, x);
  }

  /** The table lines as written open the same tags as the corrected ones. */
  lemma AsWrittenLetters()
    ensures forall k | 0 <= k < |TableTags| :: TableTagsAsWritten[k].0 == TableTags[k].0
  {
  }

  /** Before the as-written line of the `k`-th table tag, for any but th, no search touches an occurrence of it. */
  lemma AsWrittenEarlierApart(k: nat)
    requires k < 5
    ensures AllApart(EscapeStepsAsWritten[..|BlreMLSteps| + 2 * k], OpenTag(TableTagsAsWritten[k].0))
  {
    TableNamesAsWritten();
    TableLetters();
    AsWrittenLetters();
    BlreMLApartOpen(TableTagsAsWritten[k].0);
    LinesApart(BlreMLSteps, TableTagsAsWritten, k);
    StepsBeforeLine(BlreMLSteps, TableTagsAsWritten, k);
  }

  /**
   * The chain as written also leaves, for an opening table, tbody, thead, tr
   * or td tag of the template, the div that carries its name.
   */
  lemma AsWrittenWritesTagDiv(html: string, k: nat, x: nat)
    requires k < 5 && OccursAt(Trim(html), OpenTag(TableTagsAsWritten[k].0), x)
    ensures Occurs(EscapeBlreMLAsWritten(html), TagDiv(TableTagsAsWritten[k].0))
  {
    var j := |BlreMLSteps| + 2 * k;
    TableStepsAt(TableTagsAsWritten, k);
    assert EscapeStepsAsWritten[j] == TableSteps(TableTagsAsWritten)[2 * k];
    AsWrittenEarlierApart(k);
    AsWrittenRewrites(html, j, x);
  }


  // ---------------------------------------------------------------------
  // The edit form folded into template data (applyEditsToBlock)
  // ---------------------------------------------------------------------

  /** One `{name, value}` entry of a block's edit form. */
  datatype FormField = FormField(name: string, value: string)

  /** The value of the last entry of `form` called `name`, if any. */
  function LastValue(form: seq<FormField>, name: string): (r: Option<string>)
    ensures r.Some? ==> exists i :: 0 <= i < |form| && form[i] == FormField(name, r.value)
  {
    if form == [] then None
    else if form[|form| - 1].name == name then Some(form[|form| - 1].value)
    else LastValue(form[..|form| - 1], name)
  }

  /**
   * The template data the edit form describes: each entry in turn writes its
   * value under its name, so a later entry with a name overwrites an
   * earlier one and keeps that name's place.
   */
  function FoldForm(form: seq<FormField>): Fields
  {
    if form == [] then []
    else
      var last := form[|form| - 1];
      Put(FoldForm(form[..|form| - 1]), last.name, Str(last.value))
  }

  /** A name with no entry in the form has no value. */
  lemma {:induction false} LastValueNone(form: seq<FormField>, name: string)
    ensures LastValue(form, name).None? <==> forall i :: 0 <= i < |form| ==> form[i].name != name
  {
    if form != [] {
      var init := form[..|form| - 1];
      LastValueNone(init, name);
      assert forall i :: 0 <= i < |init| ==> init[i] == form[i];
    }
  }

  /** Reading a name from the folded data yields the last value the form gives it. */
  lemma {:induction false} FoldFormGet(form: seq<FormField>, name: string)
    ensures LastValue(form, name).None? ==> Get(FoldForm(form), name) == None
    ensures LastValue(form, name).Some? ==> Get(FoldForm(form), name) == Some(Str(LastValue(form, name).value))
  {
    if form != [] {
      var last := form[|form| - 1];
      FoldFormGet(form[..|form| - 1], name);
      PutGet(FoldForm(form[..|form| - 1]), last.name, Str(last.value), name);
    }
  }

  /** The folded data holds each name once, and every value is a string. */
  lemma {:induction false} FoldFormWellFormed(form: seq<FormField>)
    ensures WellFormed(Obj(FoldForm(form)))
    ensures forall k :: 0 <= k < |FoldForm(form)| ==> FoldForm(form)[k].1.Str?
  {
    if form != [] {
      var init, last := form[..|form| - 1], form[|form| - 1];
      FoldFormWellFormed(init);
      PutWellFormed(FoldForm(init), last.name, Str(last.value));
      PutStrings(FoldForm(init), last.name, last.value);
    }
  }

  /** Putting a string into string-valued fields keeps them string-valued. */
  lemma {:induction false} PutStrings(fs: Fields, key: string, text: string)
    requires forall k :: 0 <= k < |fs| ==> fs[k].1.Str?
    ensures forall k :: 0 <= k < |Put(fs, key, Str(text))| ==> Put(fs, key, Str(text))[k].1.Str?
  {
    if fs != [] && fs[0].0 != key {
      PutStrings(fs[1..], key, text);
      assert Put(fs, key, Str(text))[1..] == Put(fs[1..], key, Str(text));
    }
  }

  /** The folded data names exactly the names of the form's entries. */
  lemma {:induction false} FoldFormNames(form: seq<FormField>, name: string)
    ensures HasKey(FoldForm(form), name) <==> exists i :: 0 <= i < |form| && form[i].name == name
  {
    FoldFormGet(form, name);
    GetFinds(FoldForm(form), name);
    LastValueNone(form, name);
  }

  /**
   * `newData[arr[i].name] = arr[i].value` for each entry, in an indexed loop
   * over the form.
   */
  method FormDataToMap(form: seq<FormField>) returns (data: Fields)
    ensures data == FoldForm(form)
  {
    data := [];
    for i := 0 to |form|
      invariant data == FoldForm(form[..i])
    {
      assert form[..i + 1][..i] == form[..i];
      data := Put(data, form[i].name, Str(form[i].value));
    }
    assert form[..|form|] == form;
  }

  // ---------------------------------------------------------------------
  // The block types a template asks to load (_getBlocksToLoad)
  // ---------------------------------------------------------------------

  /**
   * As written: `type` is looked up in the array of loader elements, which
   * holds no strings, so every loader's type is pushed, duplicates included.
   */
  method BlocksToLoadAsWritten(types: seq<string>) returns (toLoad: seq<string>)
    ensures toLoad == types
  {
    toLoad := [];
    for i := 0 to |types|
      invariant toLoad == types[..i]
    {
      assert types[..i + 1] == types[..i] + [types[i]];
      toLoad := toLoad + [types[i]];
    }
    assert types[..|types|] == types;
  }

  /** Two loaders of one block type: as written the type is listed twice, corrected once. */
  lemma BlocksToLoadAsWrittenRepeats()
    ensures !NoRepeats(["gallery", "gallery"])
    ensures FirstOccurrences(["gallery", "gallery"]) == ["gallery"]
  {
    var types := ["gallery", "gallery"];
    var one := types[..1];
    assert one[..0] == [];
    assert FirstOccurrences(one) == ["gallery"];
    assert types[0] == types[1];
  }

  /** No type is listed twice. */
  predicate NoRepeats(s: seq<string>)
  {
    forall i, j :: 0 <= i < j < |s| ==> s[i] != s[j]
  }

  /** The first occurrence of every type, in document order. */
  function FirstOccurrences(types: seq<string>): (r: seq<string>)
  {
    if types == [] then []
    else
      var init := FirstOccurrences(types[..|types| - 1]);
      if types[|types| - 1] in init then init else init + [types[|types| - 1]]
  }

  /** The first occurrences list each type once, and exactly the types given. */
  lemma {:induction false} FirstOccurrencesSpec(types: seq<string>)
    ensures NoRepeats(FirstOccurrences(types))
    ensures forall t :: t in FirstOccurrences(types) <==> t in types
  {
    if types != [] {
      var init := types[..|types| - 1];
      FirstOccurrencesSpec(init);
      assert types == init + [types[|types| - 1]];
    }
  }

  /**
   * Corrected: the type is looked up among the types already pushed, so each
   * block type is loaded once, in the order of its first loader.
   */
  method BlocksToLoad(types: seq<string>) returns (toLoad: seq<string>)
    ensures toLoad == FirstOccurrences(types)
    ensures NoRepeats(toLoad) && forall t :: t in toLoad <==> t in types
  {
    toLoad := [];
    for i := 0 to |types|
      invariant toLoad == FirstOccurrences(types[..i])
    {
      assert types[..i + 1][..i] == types[..i];
      if types[i] !in toLoad {
        toLoad := toLoad + [types[i]];
      }
    }
    assert types[..|types|] == types;
    FirstOccurrencesSpec(types);
  }
}
