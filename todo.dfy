/**
 * The todo controller: the session's list of items, the three handlers that
 * read or change it (`index`, `add`, `reset`) and the page `index_body`
 * renders from the list.
 */
module Todo {
  import opened Wrappers
  import opened Text
  import opened Http
  import opened FormBody

  /** Where `add` and `reset` send the client afterwards. */
  const TodoPath: string := "/todo"

  /** Fixed text `index_body` writes before the list. */
  const PageHead: string := Doctype + TitleHead + Heading

  /** The document type and the opening `html` tag. */
  const Doctype: string := "\n        <!doctype html>\n        <html>\n"
  /** The `head` element with the page title. */
  const TitleHead: string := "            <head>\n                <title>Todo (Session-backed)</title>\n            </head>\n"
  /** The opening `body` tag and the heading. */
  const Heading: string := "            <body>\n                <h1>Todo list</h1>\n    "

  /** Fixed text `index_body` writes after the list: the add form, the reset form and a link home. */
  const PageFoot: string := AddForm + FocusScript + ResetForm + HomeLink

  /** The form posting one new `item` to `add`. */
  const AddForm: string := "\n                <form method=\"post\">\n                    <input type=\"text\" name=\"item\"/>\n                    <button type=\"submit\">Add</button>\n                </form>\n"
  /** The script that puts the cursor in the add form. */
  const FocusScript: string := "                <script type=\"text/javascript\">\n                    document.forms[0].getElementsByTagName('input')[0].focus()\n                </script>\n\n"
  /** The form posting to `reset`. */
  const ResetForm: string := "                <form method=\"post\" action=\"/todo/reset\">\n                    <button type=\"submit\">Reset</button>\n                </form>\n"
  /** The link home and the closing tags. */
  const HomeLink: string := "                <br><br>\n                <a href=\"/\">Go Home</a>\n            </body>\n        </html>\n        "

  // ---------------------------------------------------------------------
  // Rendering the list

  /** One list entry; the item text goes in as it is, unescaped. */
  function Li(item: string): (entry: string)
  {
    "<li>" + item + "</li>"
  }

  /** The entries of `items`, one after another, in list order. */
  function Items(items: seq<string>): (entries: string)
  {
    if |items| == 0 then "" else Items(items[..|items| - 1]) + Li(items[|items| - 1])
  }

  /** Rendering distributes over concatenation of lists. */
  lemma {:induction false} ItemsAppend(xs: seq<string>, ys: seq<string>)
    ensures Items(xs + ys) == Items(xs) + Items(ys)
    decreases |ys|
  {
    if |ys| > 0 {
      var last := |ys| - 1;
      assert (xs + ys)[..|xs + ys| - 1] == xs + ys[..last];
      ItemsAppend(xs, ys[..last]);
    } else {
      assert xs + ys == xs;
    }
  }

  lemma ItemsCons(x: string, rest: seq<string>)
    ensures Items([x] + rest) == Li(x) + Items(rest)
  {
    ItemsAppend([x], rest);
    assert [x][..0] == [];
  }

  /** The middle of the page: nothing for an empty list, else one `<ul>` holding every entry. */
  function ListSection(items: seq<string>): (section: string)
    ensures section == "" <==> items == []
  {
    if |items| > 0 then "<ul>" + Items(items) + "</ul>" else ""
  }

  /** The whole page for a list. */
  function Page(items: seq<string>): (page: string)
    ensures |page| == |PageHead| + |ListSection(items)| + |PageFoot|
    ensures page[|PageHead|..|page| - |PageFoot|] == ListSection(items)
  {
    Middle(PageHead, ListSection(items), PageFoot);
    PageHead + ListSection(items) + PageFoot
  }

  /** One more item adds one more entry at the end. */
  lemma ItemsSnoc(items: seq<string>, n: nat)
    requires n < |items|
    ensures Items(items[..n + 1]) == Items(items[..n]) + Li(items[n])
  {
    assert items[..n + 1][..n] == items[..n];
  }

  /**
   * The middle of `index_body`: extends `out` with `<ul>`, one entry per
   * item in list order and `</ul>`, or leaves it as it is for an empty list.
   */
  method AppendListSection(prefix: string, items: seq<string>) returns (out: string)
    ensures out == prefix + ListSection(items)
  {
    out := prefix;
    if |items| > 0 {
      out := out + "<ul>";
      for n := 0 to |items|
        invariant out == prefix + ("<ul>" + Items(items[..n]))
      {
        ItemsSnoc(items, n);
        ConcatAssoc(prefix, "<ul>" + Items(items[..n]), Li(items[n]));
        ConcatAssoc("<ul>", Items(items[..n]), Li(items[n]));
        out := out + Li(items[n]);
      }
      assert items[..|items|] == items;
      ConcatAssoc(prefix, "<ul>" + Items(items), "</ul>");
      out := out + "</ul>";
    }
  }

  /** `index_body`: the fixed head, the list section, the fixed foot. */
  method IndexBody(items: seq<string>) returns (out: string)
    ensures out == Page(items)
  {
    out := AppendListSection(PageHead, items);
    out := out + PageFoot;
  }

  // ---------------------------------------------------------------------
  // Reading the list back from the rendered section

  /** Reads a run of `<li>…</li>` entries whose texts contain no `<`. */
  function ParseItems(s: string): (items: Option<seq<string>>)
    decreases |s|
  {
    if |s| == 0 then Some([])
    else if |s| < 4 || s[..4] != "<li>" then None
    else
      var rest := s[4..];
      var i := IndexOf(rest, '<');
      if i + 5 <= |rest| && rest[i..i + 5] == "</li>" then
        match ParseItems(rest[i + 5..])
        case Some(tail) => Some([rest[..i]] + tail)
        case None => None
      else None
  }

  /** Reads the list section back: empty text is the empty list, else a `<ul>` around the entries. */
  function ParseSection(s: string): (items: Option<seq<string>>)
  {
    if |s| == 0 then Some([])
    else if |s| >= 9 && s[..4] == "<ul>" && s[|s| - 5..] == "</ul>" then ParseItems(s[4..|s| - 5])
    else None
  }

  /** Text the page shows as written: it holds no `<` that could open a tag. */
  predicate PlainText(item: string)
  {
    '<' !in item
  }

  /** For plain-text items, the rendered entries read back as exactly the list, in order. */
  lemma {:induction false} ItemsRoundTrip(items: seq<string>)
    requires forall k :: 0 <= k < |items| ==> PlainText(items[k])
    ensures ParseItems(Items(items)) == Some(items)
    decreases |items|
  {
    if |items| > 0 {
      var x, tail := items[0], items[1..];
      assert items == [x] + tail;
      ItemsCons(x, tail);
      var s := Items(items);
      var rendered := Items(tail);
      assert s == "<li>" + (x + "</li>" + rendered);
      assert s[..4] == "<li>";
      var rest := s[4..];
      assert rest == x + ("</li>" + rendered);
      IndexOfPast(x, "</li>" + rendered, '<');
      assert rest[|x|..|x| + 5] == "</li>";
      assert rest[|x| + 5..] == rendered;
      assert rest[..|x|] == x;
      ItemsRoundTrip(tail);
    }
  }

  /** For plain-text items the whole page reads back as the list: strip the fixed head and foot, then read the section. */
  lemma PageRoundTrip(items: seq<string>)
    requires forall k :: 0 <= k < |items| ==> PlainText(items[k])
    ensures var page := Page(items);
      ParseSection(page[|PageHead|..|page| - |PageFoot|]) == Some(items)
  {
    SectionRoundTrip(items);
  }

  /**
   * For plain-text items the list section determines the list: no `<ul>` for
   * the empty list, otherwise one `<ul>` holding one entry per item, in order.
   */
  lemma SectionRoundTrip(items: seq<string>)
    requires forall k :: 0 <= k < |items| ==> PlainText(items[k])
    ensures ParseSection(ListSection(items)) == Some(items)
  {
    if |items| > 0 {
      var s := ListSection(items);
      ItemsRoundTrip(items);
      ItemsCons(items[0], items[1..]);
      assert items == [items[0]] + items[1..];
      assert |Items(items)| >= 0;
      assert s[..4] == "<ul>";
      assert s[|s| - 5..] == "</ul>";
      assert s[4..|s| - 5] == Items(items);
    }
  }

  /**
   * Items are not escaped, so an item holding markup renders exactly like
   * several items: the page cannot tell them apart.
   */
  lemma MarkupInjection(a: string, b: string)
    ensures ListSection([a + "</li><li>" + b]) == ListSection([a, b])
  {
    var joined := a + "</li><li>" + b;
    ItemsCons(a, [b]);
    ItemsCons(b, []);
    ItemsCons(joined, []);
    assert [a] + [b] == [a, b] && [b] + [] == [b] && [joined] + [] == [joined];
    ConcatEmpty(Li(b));
    ConcatEmpty(Li(joined));
    calc {
      Li(joined);
      "<li>" + (a + "</li><li>" + b) + "</li>";
      { assert "</li><li>" == "</li>" + "<li>"; }
      ("<li>" + a + "</li>") + ("<li>" + b + "</li>");
      Li(a) + Li(b);
    }
  }

  // ---------------------------------------------------------------------
  // What `add` takes from a request body

  /** The item an `add` body submits, if any: the parsed value under key `item`. */
  function SubmittedItem(body: string): (item: Option<string>)
    ensures item.Some? ==> '=' !in item.value
  {
    var data := FormData(body);
    if "item" in data then Some(data["item"]) else None
  }

  /** Some kept piece has key `item`. */
  ghost predicate HasItemPiece(pieces: seq<string>)
  {
    exists j :: 0 <= j < |pieces| && '=' in pieces[j] && Key(pieces[j]) == "item"
  }

  /**
   * A body submits an item exactly when one of its kept pieces has key `item`;
   * the item is then the value of the LAST such piece, verbatim and possibly
   * empty.
   */
  lemma SubmittedItemFromPieces(body: string)
    ensures SubmittedItem(body).Some? <==> HasItemPiece(Split(body, '&'))
    ensures var pieces := Split(body, '&');
      SubmittedItem(body).Some? ==>
        exists j :: (0 <= j < |pieces| && '=' in pieces[j] && Key(pieces[j]) == "item" &&
                     SubmittedItem(body).value == Value(pieces[j]) &&
                     forall l :: j < l < |pieces| && '=' in pieces[l] ==> Key(pieces[l]) != "item")
  {
    var pieces := Split(body, '&');
    var data := Absorb(pieces);
    assert FormData(body) == data;
    assert SubmittedItem(body) == if "item" in data then Some(data["item"]) else None;
    AbsorbKeys(pieces, "item");
    if "item" in data {
      AbsorbLast(pieces, "item");
    }
  }

  /** The items a series of `add` bodies appends, in submission order. */
  function ItemsAdded(bodies: seq<string>): (added: seq<string>)
  {
    if |bodies| == 0 then []
    else
      var earlier := ItemsAdded(bodies[..|bodies| - 1]);
      match SubmittedItem(bodies[|bodies| - 1])
      case Some(item) => earlier + [item]
      case None => earlier
  }

  /** Items added by two runs of requests are those of the first, then those of the second. */
  lemma {:induction false} ItemsAddedAppend(a: seq<string>, b: seq<string>)
    ensures ItemsAdded(a + b) == ItemsAdded(a) + ItemsAdded(b)
    decreases |b|
  {
    if |b| == 0 {
      assert a + b == a;
    } else {
      var last := |b| - 1;
      assert (a + b)[..|a + b| - 1] == a + b[..last];
      assert (a + b)[|a + b| - 1] == b[last];
      ItemsAddedAppend(a, b[..last]);
    }
  }

  /** Each body adds at most one item; only bodies without a kept `item=` piece add none. */
  lemma {:induction false} ItemsAddedBound(bodies: seq<string>)
    ensures |ItemsAdded(bodies)| <= |bodies|
    ensures |ItemsAdded(bodies)| == |bodies| <==> forall k :: 0 <= k < |bodies| ==> SubmittedItem(bodies[k]).Some?
    decreases |bodies|
  {
    if |bodies| > 0 {
      var init := bodies[..|bodies| - 1];
      ItemsAddedBound(init);
      assert forall k :: 0 <= k < |init| ==> init[k] == bodies[k];
    }
  }

  // ---------------------------------------------------------------------
  // The session and the handlers

  /**
   * The per-client session state: the todo list, oldest item first. Loading,
   * saving and discarding it between requests is the session middleware's
   * job and is not modelled; each handler sees the list of its own client.
   */
  class TodoSession {
    var todoList: seq<string>

    /** A fresh session starts with an empty list. */
    constructor ()
      ensures todoList == []
    {
      todoList := [];
    }

    /** `index`: a 200 HTML page rendering the list; the session is left as it was. */
    method Index() returns (resp: Response)
      ensures resp == HtmlPage(Page(todoList))
    {
      var body := IndexBody(todoList);
      resp := HtmlPage(body);
    }

    /**
     * `add`: appends the submitted item (whatever follows `item=`, the empty
     * text included) and answers 303 See Other to the list, item or not.
     */
    method Add(body: string) returns (resp: Response)
      modifies this
      ensures todoList == old(todoList) + ItemsAdded([body])
      ensures resp == SeeOther(TodoPath)
    {
      var data := ParseFormBody(body);
      assert [body][..0] == [];
      if "item" in data {
        todoList := todoList + [data["item"]];
      }
      resp := SeeOther(TodoPath);
    }

    /**
     * `reset`: the session is discarded, so the next view sees a fresh, empty
     * list; the answer is 303 See Other to the list.
     */
    method Reset() returns (resp: Response)
      modifies this
      ensures todoList == []
      ensures resp == SeeOther(TodoPath)
    {
      todoList := [];
      resp := SeeOther(TodoPath);
    }
  }
}
