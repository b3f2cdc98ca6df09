/**
 * Lesson 10, task 2: HTML lists written into a `StringBuilder` by small
 * builder classes (`HTML`, `HTMLBody`, `HTMLList`, `HTMLItem`). Each builder
 * call `myX { ... }` appends an opening tag, runs its block, and appends the
 * closing tag; the methods below make those appends in the same order on a
 * `StringBuilder` object. Item texts are copied as they are, with no
 * escaping.
 */
module Html {
  import opened Wrappers
  import opened Text

  /** The `StringBuilder` shared by every builder of one page. */
  class StringBuilder {
    var text: string

    constructor ()
      ensures text == ""
    {
      text := "";
    }

    method Append(s: string)
      modifies this
      ensures text == old(text) + s
    {
      text := text + s;
    }
  }

  // ---------------------------------------------------------------- the pages
  //
  // Each page is written as the concatenation of the pieces the builders
  // append, in the order they append them.

  /** One `<li>` element per item, in order. */
  function Items(list: seq<string>): string {
    if list == [] then "" else Items(list[..|list| - 1]) + "<li>" + list[|list| - 1] + "</li>"
  }

  /** `myHtml { myBody { +heading; <list> { ... } } }` with the list tags `open` and `close`. */
  function ListPage(open: string, close: string, heading: string, list: seq<string>): string {
    "<html>" + "<body>" + heading + open + Items(list) + close + "</body>" + "</html>"
  }

  /** `generateListHtml`. */
  function ListHtml(list: seq<string>): string {
    ListPage("<ol>", "</ol>", "", list)
  }

  /** `generateUnorderedListHtml`. */
  function UnorderedListHtml(list: seq<string>): string {
    ListPage("<ul>", "</ul>", "", list)
  }

  function Heading(title: string): string {
    "<h1>" + title + "</h1>"
  }

  /** `generateListWithTitleHtml`. */
  function ListWithTitleHtml(title: string, list: seq<string>): string {
    ListPage("<ol>", "</ol>", Heading(title), list)
  }

  /** `generateUnorderedListWithTitleHtml`. */
  function UnorderedListWithTitleHtml(title: string, list: seq<string>): string {
    ListPage("<ul>", "</ul>", Heading(title), list)
  }

  /** The `<ul>` of the sub-items, written only when there are any. */
  function SubList(sub: seq<string>): string {
    if sub == [] then "" else "<ul>" + Items(sub) + "</ul>"
  }

  /** One item of the nested list: its text, then an inner `<ul>` only when there are sub-items. */
  function NestedItem(main: string, sub: seq<string>): string {
    "<li>" + main + SubList(sub) + "</li>"
  }

  /** The items of the nested list, one after another. */
  function NestedItems(mainItems: seq<(string, seq<string>)>): string {
    if mainItems == [] then ""
    else
      var last := mainItems[|mainItems| - 1];
      NestedItems(mainItems[..|mainItems| - 1]) + NestedItem(last.0, last.1)
  }

  /** `generateNestedListHtml`. */
  function NestedListHtml(mainItems: seq<(string, seq<string>)>): string {
    "<html>" + "<body>" + "<ol>" + NestedItems(mainItems) + "</ol>" + "</body>" + "</html>"
  }

  /** `<dt>term</dt><dd>description</dd>`. */
  function Description(term: string, description: string): string {
    ("<dt>" + term + "</dt>") + ("<dd>" + description + "</dd>")
  }

  function Descriptions(items: seq<(string, string)>): string {
    if items == [] then ""
    else
      var last := items[|items| - 1];
      Descriptions(items[..|items| - 1]) + Description(last.0, last.1)
  }

  /** `generateDescriptionListHtml`. */
  function DescriptionListHtml(items: seq<(string, string)>): string {
    "<html>" + "<body>" + "<dl>" + Descriptions(items) + "</dl>" + "</body>" + "</html>"
  }

  /** The ` class="..."` attribute, written only for a non-empty class. */
  function ClassAttribute(cls: string): string {
    if cls == "" then "" else " class=\"" + cls + "\""
  }

  /** One `<li>` element, with the class attribute when there is a class. */
  function StyledItem(item: string, itemClass: string): string {
    "<li" + ClassAttribute(itemClass) + ">" + item + "</li>"
  }

  function StyledItems(list: seq<string>, itemClass: string): string {
    if list == [] then "" else StyledItems(list[..|list| - 1], itemClass) + StyledItem(list[|list| - 1], itemClass)
  }

  /** `generateStyledListHtml`. */
  function StyledListHtml(list: seq<string>, listClass: string, itemClass: string): string {
    "<html>" + "<body>" + ("<ol" + ClassAttribute(listClass) + ">") + StyledItems(list, itemClass) + "</ol>" + "</body>" + "</html>"
  }

  // ---------------------------------------------------------------- the builders

  /** `myItem { +item }` for each item of `list`, in order. */
  method AppendItems(sb: StringBuilder, list: seq<string>)
    modifies sb
    ensures sb.text == old(sb.text) + Items(list)
  {
    var i := 0;
    while i < |list|
      invariant 0 <= i <= |list|
      invariant sb.text == old(sb.text) + Items(list[..i])
    {
      ghost var before := sb.text;
      sb.Append("<li>");
      sb.Append(list[i]);
      sb.Append("</li>");
      ItemsStep(old(sb.text), before, list, i);
      i := i + 1;
    }
    assert list[..i] == list;
  }

  /** The text after appending one more item is the text of the items up to it. */
  lemma ItemsStep(start: string, before: string, list: seq<string>, i: nat)
    requires i < |list| && before == start + Items(list[..i])
    ensures before + "<li>" + list[i] + "</li>" == start + Items(list[..i + 1])
  {
    assert list[..i + 1][..i] == list[..i];
  }

  /** A page holding one list, as `generateListHtml` and its three variants build it. */
  method BuildListPage(open: string, close: string, heading: string, list: seq<string>) returns (html: string)
    ensures html == ListPage(open, close, heading, list)
  {
    var sb := new StringBuilder();
    sb.Append("<html>");
    assert sb.text == "<html>";
    sb.Append("<body>");
    sb.Append(heading);
    sb.Append(open);
    AppendItems(sb, list);
    sb.Append(close);
    sb.Append("</body>");
    sb.Append("</html>");
    html := sb.text;
  }

  method GenerateListHtml(list: seq<string>) returns (html: string)
    ensures html == ListHtml(list)
  {
    html := BuildListPage("<ol>", "</ol>", "", list);
  }

  method GenerateUnorderedListHtml(list: seq<string>) returns (html: string)
    ensures html == UnorderedListHtml(list)
  {
    html := BuildListPage("<ul>", "</ul>", "", list);
  }

  method GenerateListWithTitleHtml(title: string, list: seq<string>) returns (html: string)
    ensures html == ListWithTitleHtml(title, list)
  {
    html := BuildListPage("<ol>", "</ol>", Heading(title), list);
  }

  method GenerateUnorderedListWithTitleHtml(title: string, list: seq<string>) returns (html: string)
    ensures html == UnorderedListWithTitleHtml(title, list)
  {
    html := BuildListPage("<ul>", "</ul>", Heading(title), list);
  }

  /** The items of the nested list, in order. */
  method AppendNestedItems(sb: StringBuilder, mainItems: seq<(string, seq<string>)>)
    modifies sb
    ensures sb.text == old(sb.text) + NestedItems(mainItems)
  {
    var i := 0;
    while i < |mainItems|
      invariant 0 <= i <= |mainItems|
      invariant sb.text == old(sb.text) + NestedItems(mainItems[..i])
    {
      var (mainItem, subItems) := mainItems[i];
      AppendNestedItem(sb, mainItem, subItems);
      NestedItemsStep(old(sb.text), mainItems, i);
      i := i + 1;
    }
    assert mainItems[..i] == mainItems;
  }

  /** One more main item extends the text of the main items before it. */
  lemma NestedItemsStep(start: string, mainItems: seq<(string, seq<string>)>, i: nat)
    requires i < |mainItems|
    ensures start + NestedItems(mainItems[..i]) + NestedItem(mainItems[i].0, mainItems[i].1) ==
            start + NestedItems(mainItems[..i + 1])
  {
    assert mainItems[..i + 1][..i] == mainItems[..i];
  }

  method GenerateNestedListHtml(mainItems: seq<(string, seq<string>)>) returns (html: string)
    ensures html == NestedListHtml(mainItems)
  {
    var sb := OpenPage("<ol>");
    AppendNestedItems(sb, mainItems);
    ClosePage(sb, "</ol>");
    html := sb.text;
  }

  /** `myItem { +mainItem; if (subItems.isNotEmpty()) myUnorderedList { ... } }`. */
  method AppendNestedItem(sb: StringBuilder, mainItem: string, subItems: seq<string>)
    modifies sb
    ensures sb.text == old(sb.text) + NestedItem(mainItem, subItems)
  {
    sb.Append("<li>");
    sb.Append(mainItem);
    AppendSubList(sb, subItems);
    sb.Append("</li>");
    NestedItemParts(old(sb.text), mainItem, subItems);
  }

  /** `if (subItems.isNotEmpty()) myUnorderedList { ... }`. */
  method AppendSubList(sb: StringBuilder, subItems: seq<string>)
    modifies sb
    ensures sb.text == old(sb.text) + SubList(subItems)
  {
    if subItems != [] {
      sb.Append("<ul>");
      AppendItems(sb, subItems);
      sb.Append("</ul>");
      SubListParts(old(sb.text), subItems);
    }
  }

  /** The appends of a non-empty sub-list, taken together, write `SubList`. */
  lemma SubListParts(start: string, subItems: seq<string>)
    requires subItems != []
    ensures start + "<ul>" + Items(subItems) + "</ul>" == start + SubList(subItems)
  {
  }

  /** The appends of one main item, taken together, write `NestedItem`. */
  lemma NestedItemParts(start: string, mainItem: string, subItems: seq<string>)
    ensures start + "<li>" + mainItem + SubList(subItems) + "</li>" == start + NestedItem(mainItem, subItems)
  {
  }

  /** `myHtml { myBody {` followed by `open`: the text every page starts with. */
  method OpenPage(open: string) returns (sb: StringBuilder)
    ensures fresh(sb) && sb.text == "<html>" + "<body>" + open
  {
    sb := new StringBuilder();
    sb.Append("<html>");
    assert sb.text == "<html>";
    sb.Append("<body>");
    sb.Append(open);
  }

  /** `close` followed by the closing `</body></html>`. */
  method ClosePage(sb: StringBuilder, close: string)
    modifies sb
    ensures sb.text == old(sb.text) + close + "</body>" + "</html>"
  {
    sb.Append(close);
    sb.Append("</body>");
    sb.Append("</html>");
  }

  /** `<dt>term</dt><dd>description</dd>` for each pair, in order. */
  method AppendDescriptions(sb: StringBuilder, items: seq<(string, string)>)
    modifies sb
    ensures sb.text == old(sb.text) + Descriptions(items)
  {
    var i := 0;
    while i < |items|
      invariant 0 <= i <= |items|
      invariant sb.text == old(sb.text) + Descriptions(items[..i])
    {
      var (term, description) := items[i];
      ghost var before := sb.text;
      sb.Append("<dt>" + term + "</dt>");
      sb.Append("<dd>" + description + "</dd>");
      DescriptionsStep(old(sb.text), before, items, i);
      i := i + 1;
    }
    assert items[..i] == items;
  }

  /** The text after appending one more pair is the text of the pairs up to it. */
  lemma DescriptionsStep(start: string, before: string, items: seq<(string, string)>, i: nat)
    requires i < |items| && before == start + Descriptions(items[..i])
    ensures before + ("<dt>" + items[i].0 + "</dt>") + ("<dd>" + items[i].1 + "</dd>") == start + Descriptions(items[..i + 1])
  {
    assert items[..i + 1][..i] == items[..i];
  }

  method GenerateDescriptionListHtml(items: seq<(string, string)>) returns (html: string)
    ensures html == DescriptionListHtml(items)
  {
    var sb := OpenPage("<dl>");
    AppendDescriptions(sb, items);
    ClosePage(sb, "</dl>");
    html := sb.text;
  }

  /** `sb.append("<li$itemAttr>$item</li>")`. */
  method AppendStyledItem(sb: StringBuilder, item: string, itemClass: string)
    modifies sb
    ensures sb.text == old(sb.text) + StyledItem(item, itemClass)
  {
    var itemAttr := if itemClass != "" then " class=\"" + itemClass + "\"" else "";
    sb.Append("<li" + itemAttr + ">" + item + "</li>");
  }

  /** The items of the styled list, in order. */
  method AppendStyledItems(sb: StringBuilder, list: seq<string>, itemClass: string)
    modifies sb
    ensures sb.text == old(sb.text) + StyledItems(list, itemClass)
  {
    var i := 0;
    while i < |list|
      invariant 0 <= i <= |list|
      invariant sb.text == old(sb.text) + StyledItems(list[..i], itemClass)
    {
      AppendStyledItem(sb, list[i], itemClass);
      StyledItemsStep(old(sb.text), list, i, itemClass);
      i := i + 1;
    }
    assert list[..i] == list;
  }

  /** One more styled item extends the text of the items before it. */
  lemma StyledItemsStep(prefix: string, list: seq<string>, i: nat, itemClass: string)
    requires i < |list|
    ensures prefix + StyledItems(list[..i], itemClass) + StyledItem(list[i], itemClass) ==
            prefix + StyledItems(list[..i + 1], itemClass)
  {
    assert list[..i + 1][..i] == list[..i];
  }

  method GenerateStyledListHtml(list: seq<string>, listClass: string, itemClass: string) returns (html: string)
    ensures html == StyledListHtml(list, listClass, itemClass)
  {
    var listAttr := if listClass != "" then " class=\"" + listClass + "\"" else "";
    var sb := OpenPage("<ol" + listAttr + ">");
    AppendStyledItems(sb, list, itemClass);
    ClosePage(sb, "</ol>");
    html := sb.text;
  }

  // ---------------------------------------------------------------- what the pages say

  /** Text without a `<`: it cannot end an element early. */
  predicate PlainText(s: string) {
    forall i :: 0 <= i < |s| ==> s[i] != '<'
  }

  predicate AllPlain(list: seq<string>) {
    forall i :: 0 <= i < |list| ==> PlainText(list[i])
  }

  /** The length of the text before the first `<` of `s`. */
  function TextLength(s: string): (n: nat)
    ensures n <= |s| && PlainText(s[..n]) && (n < |s| ==> s[n] == '<')
  {
    if s == [] || s[0] == '<' then 0
    else
      var n := 1 + TextLength(s[1..]);
      assert s[..n] == [s[0]] + s[1..][..n - 1];
      n
  }

  /** Reads `<li>text</li>` elements back into their texts. */
  function DecodeItems(s: string): Option<seq<string>>
    decreases |s|
  {
    if s == [] then Some([])
    else if |s| < 4 || s[..4] != "<li>" then None
    else
      var rest := s[4..];
      var n := TextLength(rest);
      var after := rest[n..];
      if |after| < 5 || after[..5] != "</li>" then None
      else
        match DecodeItems(after[5..])
        case None => None
        case Some(texts) => Some([rest[..n]] + texts)
  }

  /** Reads a page of `generateListHtml` back into its items. */
  function DecodeListHtml(html: string): Option<seq<string>> {
    var head, tail := "<html><body><ol>", "</ol></body></html>";
    if |html| < |head| + |tail| || html[..|head|] != head || html[|html| - |tail|..] != tail then None
    else DecodeItems(html[|head|..|html| - |tail|])
  }

  /** The items, read from the front: the first item's element comes first. */
  lemma {:induction false} ItemsCons(x: string, list: seq<string>)
    ensures Items([x] + list) == "<li>" + x + "</li>" + Items(list)
    decreases |list|
  {
    var xs := [x] + list;
    if list == [] {
      assert xs[..0] == [];
    } else {
      var init, last := list[..|list| - 1], list[|list| - 1];
      assert xs[..|xs| - 1] == [x] + init && xs[|xs| - 1] == last;
      ItemsCons(x, init);
      ConcatAssociates("<li>" + x + "</li>", Items(init), "<li>" + last + "</li>");
    }
  }

  lemma {:induction false} TextLengthOf(x: string, y: string)
    requires PlainText(x) && y != [] && y[0] == '<'
    ensures TextLength(x + y) == |x|
    decreases |x|
  {
    if x == [] {
      assert x + y == y;
    } else {
      assert (x + y)[1..] == x[1..] + y;
      TextLengthOf(x[1..], y);
    }
  }

  /** Items without a `<` are read back from their elements. */
  lemma {:induction false} DecodeItemsRoundTrip(list: seq<string>)
    requires AllPlain(list)
    ensures DecodeItems(Items(list)) == Some(list)
    decreases |list|
  {
    if list != [] {
      var x, more := list[0], list[1..];
      assert list == [x] + more;
      ItemsCons(x, more);
      var s := Items(list);
      var after := "</li>" + Items(more);
      assert s == "<li>" + (x + after);
      var rest := s[4..];
      assert rest == x + after;
      TextLengthOf(x, after);
      assert rest[..|x|] == x && rest[|x|..] == after;
      assert after[..5] == "</li>" && after[5..] == Items(more);
      assert AllPlain(more) by {
        forall i | 0 <= i < |more| ensures PlainText(more[i]) {
          assert more[i] == list[i + 1];
        }
      }
      DecodeItemsRoundTrip(more);
    }
  }

  /**
   * A page of `generateListHtml` whose items hold no `<` gives its items
   * back: the page says which items there are, and in which order.
   */
  lemma ListHtmlRoundTrip(list: seq<string>)
    requires AllPlain(list)
    ensures DecodeListHtml(ListHtml(list)) == Some(list)
  {
    var head, tail := "<html><body><ol>", "</ol></body></html>";
    ListHtmlFrame(list);
    SliceMiddle(head, Items(list), tail);
    DecodeItemsRoundTrip(list);
  }

  lemma ListHtmlFrame(list: seq<string>)
    ensures ListHtml(list) == "<html><body><ol>" + Items(list) + "</ol></body></html>"
  {
  }

  lemma SliceMiddle<T>(a: seq<T>, b: seq<T>, c: seq<T>)
    ensures var s := a + b + c;
      s[..|a|] == a && s[|s| - |c|..] == c && s[|a|..|s| - |c|] == b
  {
  }

  /** Different lists of items without `<` give different pages. */
  lemma ListHtmlInjective(a: seq<string>, b: seq<string>)
    requires AllPlain(a) && AllPlain(b) && ListHtml(a) == ListHtml(b)
    ensures a == b
  {
    ListHtmlRoundTrip(a);
    ListHtmlRoundTrip(b);
  }

  /** Item texts are not escaped: an item holding `</li><li>` reads as two items. */
  lemma ItemsAreNotEscaped()
    ensures ListHtml(["a</li><li>b"]) == ListHtml(["a", "b"])
  {
    assert ["a", "b"][..1] == ["a"];
    assert ["a"][..0] == [];
    assert ["a</li><li>b"][..0] == [];
  }

  /** The title variants write `<h1>title</h1>` right after `<body>`, before the list. */
  lemma TitleAfterBody(open: string, close: string, title: string, list: seq<string>)
    ensures var plain := ListPage(open, close, "", list);
      |plain| >= 12 && ListPage(open, close, Heading(title), list) == plain[..12] + Heading(title) + plain[12..]
  {
    var start := "<html>" + "<body>";
    var plain := ListPage(open, close, "", list);
    var rest := open + Items(list) + close + "</body>" + "</html>";
    assert plain == start + rest;
    assert ListPage(open, close, Heading(title), list) == start + Heading(title) + rest;
    assert plain[..12] == start && plain[12..] == rest;
  }

  /** The texts of the main items. */
  function MainTexts(mainItems: seq<(string, seq<string>)>): (texts: seq<string>)
    ensures |texts| == |mainItems| && forall i :: 0 <= i < |mainItems| ==> texts[i] == mainItems[i].0
  {
    if mainItems == [] then [] else MainTexts(mainItems[..|mainItems| - 1]) + [mainItems[|mainItems| - 1].0]
  }

  /** Without sub-items no inner `<ul>` is written: the nested page is the plain ordered list of the main texts. */
  lemma NestedWithoutSubLists(mainItems: seq<(string, seq<string>)>)
    requires forall i :: 0 <= i < |mainItems| ==> mainItems[i].1 == []
    ensures NestedListHtml(mainItems) == ListHtml(MainTexts(mainItems))
  {
    NestedItemsFlat(mainItems);
    var start := "<html>" + "<body>";
    assert start + "" == start;
  }

  lemma {:induction false} NestedItemsFlat(mainItems: seq<(string, seq<string>)>)
    requires forall i :: 0 <= i < |mainItems| ==> mainItems[i].1 == []
    ensures NestedItems(mainItems) == Items(MainTexts(mainItems))
    decreases |mainItems|
  {
    if mainItems != [] {
      var init := mainItems[..|mainItems| - 1];
      var last := mainItems[|mainItems| - 1];
      assert forall i :: 0 <= i < |init| ==> init[i].1 == [] by {
        assert forall i :: 0 <= i < |init| ==> init[i] == mainItems[i];
      }
      NestedItemsFlat(init);
      assert last.1 == [];
      FlatItemStep(NestedItems(init), Items(MainTexts(init)), last.0);
    }
  }

  /** A main item without sub-items is written as a plain item. */
  lemma FlatItemStep(a: string, b: string, x: string)
    requires a == b
    ensures a + NestedItem(x, []) == b + "<li>" + x + "</li>"
  {
    assert NestedItem(x, []) == "<li>" + x + "</li>";
  }

  /** Without classes no attribute is written: the styled page is the plain ordered list. */
  lemma StyledWithoutClasses(list: seq<string>)
    ensures StyledListHtml(list, "", "") == ListHtml(list)
  {
    StyledItemsPlain(list);
  }

  lemma {:induction false} StyledItemsPlain(list: seq<string>)
    ensures StyledItems(list, "") == Items(list)
    decreases |list|
  {
    if list != [] {
      StyledItemsPlain(list[..|list| - 1]);
    }
  }

  /** The pairs, read from the front: the first term and its description come first. */
  lemma {:induction false} DescriptionsCons(term: string, description: string, items: seq<(string, string)>)
    ensures Descriptions([(term, description)] + items) == Description(term, description) + Descriptions(items)
    decreases |items|
  {
    var all := [(term, description)] + items;
    if items == [] {
      assert all[..0] == [];
    } else {
      var init, last := items[..|items| - 1], items[|items| - 1];
      assert all[..|all| - 1] == [(term, description)] + init && all[|all| - 1] == last;
      DescriptionsCons(term, description, init);
      ConcatAssociates(Description(term, description), Descriptions(init), Description(last.0, last.1));
    }
  }
}
