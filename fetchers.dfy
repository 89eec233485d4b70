/**
 * The record-extraction half of the two catalog fetchers (generate.py:35-117):
 * the HTTP responses are inputs, decoded JSON or `None` when the request failed.
 * An exception that the source does not catch ends the whole run; it is an `Err`.
 */
module Fetchers {
  import opened Wrappers
  import opened Json
  import opened Pipeline

  /** The Python exception that aborts the run. */
  datatype Crash =
    | AttributeError   // `.get` on a value that is not a dict, or `.split` on a value that is not a str
    | TypeError        // iterating or subscripting a value that does not support it
    | KeyError         // `tag["name"]` on a tag dict without "name"

  const DefaultTitle: string := "无标题"
  const DefaultContent: string := "无内容"
  const DefaultAuthor: string := "匿名用户"
  const PageSize: nat := 16

  /** A field value as the main loop's `clean_text` needs it: anything but a str raises `AttributeError` there. */
  function AsText(j: Json): (r: Result<string, Crash>)
  {
    if j.Str? then Ok(j.s) else Err(AttributeError)
  }

  /** `d.get(key, default)` on a dict `d`. */
  function Field(item: Json, key: string, default: Json): (r: Json)
    requires item.Object?
  {
    match Lookup(item.members, key)
    case Some(v) => v
    case None => default
  }

  /** `[tag["name"] for tag in tags]` (generate.py:56). */
  function TagNames(tags: seq<Json>): (r: Result<seq<string>, Crash>)
    ensures r.Ok? ==> |r.value| == |tags|
    ensures r.Ok? ==>
      forall k :: 0 <= k < |tags| ==> tags[k].Object? && Lookup(tags[k].members, "name") == Some(Str(r.value[k]))
  {
    if tags == [] then Ok([])
    else
      var tag := tags[0];
      var name :=
        if !tag.Object? then Err(TypeError)
        else match Lookup(tag.members, "name")
          case None => Err(KeyError)
          case Some(v) => AsText(v);
      match (name, TagNames(tags[1..]))
      case (Ok(n), Ok(rest)) => Ok([n] + rest)
      case (Err(e), _) => Err(e)
      case (_, Err(e)) => Err(e)
  }

  /** The strings a `for` loop over a tags value visits. */
  function TagTexts(tags: Json): (r: Result<seq<string>, Crash>)
  {
    match Iterate(tags)
    case None => Err(TypeError)
    case Some(items) => AllTexts(items)
  }

  /** Every item must be a str; they are the texts, in order. */
  function AllTexts(items: seq<Json>): (r: Result<seq<string>, Crash>)
    ensures r.Ok? <==> forall k :: 0 <= k < |items| ==> items[k].Str?
    ensures r.Ok? ==> |r.value| == |items| && forall k :: 0 <= k < |items| ==> items[k] == Str(r.value[k])
  {
    if items == [] then Ok([])
    else match (AsText(items[0]), AllTexts(items[1..]))
      case (Ok(t), Ok(rest)) => Ok([t] + rest)
      case (Err(e), _) => Err(e)
      case (_, Err(e)) => Err(e)
  }

  /** A prompt from its fields, each of which must be text. */
  function MakePrompt(title: Json, author: Json, tags: Result<seq<string>, Crash>, content: Json): (r: Result<Prompt, Crash>)
  {
    match (AsText(title), AsText(author), tags, AsText(content))
    case (Ok(t), Ok(a), Ok(ts), Ok(c)) => Ok(Prompt(t, a, ts, c))
    case (Err(e), _, _, _) => Err(e)
    case (_, Err(e), _, _) => Err(e)
    case (_, _, Err(e), _) => Err(e)
    case (_, _, _, Err(e)) => Err(e)
  }

  /** One item of a JoestarMarket page (generate.py:47-63); `None` when it is skipped. */
  function JoestarItem(item: Json): (r: Result<Option<Prompt>, Crash>)
    ensures !item.Object? ==> r == Ok(None)
    ensures r.Ok? ==> (r.value.Some? <==> item.Object?)
  {
    if !item.Object? then Ok(None)
    else
      var owner := Field(item, "owner", Object([]));
      match Get(owner, "username", Str(DefaultAuthor))
      case None => Err(AttributeError)
      case Some(author) =>
        var tags := match Iterate(Field(item, "tags", Array([])))
          case None => Err(TypeError)
          case Some(ts) => TagNames(ts);
        match MakePrompt(Field(item, "title", Str(DefaultTitle)), author, tags,
                         Field(item, "content", Str(DefaultContent)))
        case Ok(p) => Ok(Some(p))
        case Err(e) => Err(e)
  }

  /** The prompts a JoestarMarket page yields, in order. */
  function JoestarItems(items: seq<Json>): (r: Result<seq<Prompt>, Crash>)
  {
    if items == [] then Ok([])
    else match (JoestarItem(items[0]), JoestarItems(items[1..]))
      case (Ok(p), Ok(rest)) => Ok((if p.Some? then [p.value] else []) + rest)
      case (Err(e), _) => Err(e)
      case (_, Err(e)) => Err(e)
  }

  /** A dict item counts; anything else is skipped. */
  function CountDicts(items: seq<Json>): (r: nat)
  {
    if items == [] then 0 else (if items[0].Object? then 1 else 0) + CountDicts(items[1..])
  }

  /** Every dict item yields one prompt, in order; missing fields take the defaults. */
  lemma {:induction false} JoestarItemsSpec(items: seq<Json>)
    requires JoestarItems(items).Ok?
    ensures |JoestarItems(items).value| == CountDicts(items)
    decreases |items|
  {
    if items != [] {
      JoestarItemsSpec(items[1..]);
    }
  }

  /**
   * A page is extracted item by item: the prompts of `a + b` are those of `a`
   * followed by those of `b`, and the first item that raises ends extraction.
   */
  lemma {:induction false} JoestarItemsAppend(a: seq<Json>, b: seq<Json>)
    ensures JoestarItems(a + b) == if JoestarItems(a).Err? then JoestarItems(a) else Prepend(JoestarItems(a).value, JoestarItems(b))
    decreases |a|
  {
    if a == [] {
      assert a + b == b;
      if JoestarItems(b).Ok? {
        assert [] + JoestarItems(b).value == JoestarItems(b).value;
      }
    } else {
      assert (a + b)[0] == a[0] && (a + b)[1..] == a[1..] + b;
      JoestarItemsAppend(a[1..], b);
      if JoestarItem(a[0]).Ok? && JoestarItems(a[1..]).Ok? {
        PrependAssoc(if JoestarItem(a[0]).value.Some? then [JoestarItem(a[0]).value.value] else [],
                     JoestarItems(a[1..]).value, JoestarItems(b));
      }
    }
  }

  /** One item yields its prompt when it is a dict, nothing otherwise, or the crash it raises. */
  lemma JoestarItemsSingle(item: Json)
    ensures JoestarItem(item).Err? ==> JoestarItems([item]) == Err(JoestarItem(item).error)
    ensures JoestarItem(item).Ok? ==>
      JoestarItems([item]) == Ok(if item.Object? then [JoestarItem(item).value.value] else [])
  {
    assert [item][1..] == [];
    if JoestarItem(item).Ok? {
      var one: seq<Prompt> := if item.Object? then [JoestarItem(item).value.value] else [];
      assert one + [] == one;
    }
  }

  /**
   * The fields of a JoestarMarket prompt (generate.py:51-56): a present title or
   * content is the string stored there and a missing one is "无标题" or "无内容";
   * the author is the owner's "username", "匿名用户" when there is no owner or no
   * username; the tags are the "name" of each tag dict, none when there are no tags.
   */
  lemma JoestarDefaults(item: Json)
    requires item.Object? && JoestarItem(item).Ok?
    ensures JoestarItem(item).value.Some?
    ensures var p := JoestarItem(item).value.value;
      && (Lookup(item.members, "title").None? ==> p.title == DefaultTitle)
      && (Lookup(item.members, "title").Some? ==> Lookup(item.members, "title") == Some(Str(p.title)))
      && (Lookup(item.members, "content").None? ==> p.content == DefaultContent)
      && (Lookup(item.members, "content").Some? ==> Lookup(item.members, "content") == Some(Str(p.content)))
      && (Lookup(item.members, "owner").None? ==> p.author == DefaultAuthor)
      && (Lookup(item.members, "tags").None? ==> p.tags == [])
    ensures var p := JoestarItem(item).value.value;
      match Lookup(item.members, "owner")
      case None => true
      case Some(owner) =>
        && owner.Object?
        && (Lookup(owner.members, "username").None? ==> p.author == DefaultAuthor)
        && (Lookup(owner.members, "username").Some? ==> Lookup(owner.members, "username") == Some(Str(p.author)))
    ensures var p := JoestarItem(item).value.value;
      match Lookup(item.members, "tags")
      case Some(Array(tags)) =>
        && |p.tags| == |tags|
        && forall k :: 0 <= k < |tags| ==> tags[k].Object? && Lookup(tags[k].members, "name") == Some(Str(p.tags[k]))
      case _ => true
  {
    if Lookup(item.members, "owner").None? {
      assert Field(item, "owner", Object([])) == Object([]);
    }
  }

  /** The response to the request with `skip = 16 * k`; pages past the end of `pages` are failed requests. */
  function PageAt(pages: seq<Option<Json>>, k: nat): (r: Option<Json>)
  {
    if k < |pages| then pages[k] else None
  }

  /** `None` or an empty page ends the pagination (generate.py:44-45). */
  predicate EndOfData(page: Option<Json>)
  {
    page.None? || !Truthy(page.value)
  }

  function PageItems(page: Json): (r: Result<seq<Prompt>, Crash>)
  {
    match Iterate(page)
    case None => Err(TypeError)
    case Some(items) => JoestarItems(items)
  }

  function Prepend(items: seq<Prompt>, r: Result<seq<Prompt>, Crash>): (res: Result<seq<Prompt>, Crash>)
  {
    match r
    case Ok(rest) => Ok(items + rest)
    case Err(e) => Err(e)
  }

  /** The prompts of pages `k`, `k + 1`, ... up to the end of data. */
  function JoestarFrom(pages: seq<Option<Json>>, k: nat): (r: Result<seq<Prompt>, Crash>)
    decreases |pages| - k
  {
    var page := PageAt(pages, k);
    if EndOfData(page) then Ok([])
    else match PageItems(page.value)
      case Err(e) => Err(e)
      case Ok(items) => Prepend(items, JoestarFrom(pages, k + 1))
  }

  /** The index of the last page requested: the first end-of-data page, or the page that raised. */
  function LastPage(pages: seq<Option<Json>>, k: nat): (m: nat)
    requires k <= |pages|
    ensures k <= m <= |pages|
    decreases |pages| - k
  {
    var page := PageAt(pages, k);
    if EndOfData(page) || PageItems(page.value).Err? then k else LastPage(pages, k + 1)
  }

  /** The prompts of page `i`, when it was fetched and extracted without raising. */
  function PageAtItems(pages: seq<Option<Json>>, i: nat): (r: seq<Prompt>)
  {
    var page := PageAt(pages, i);
    if page.None? then []
    else match PageItems(page.value)
      case Ok(items) => items
      case Err(_) => []
  }

  /** The prompts of pages `k` to `m - 1`, in page order. */
  function ItemsBetween(pages: seq<Option<Json>>, k: nat, m: nat): (r: seq<Prompt>)
    decreases m - k
  {
    if k >= m then [] else PageAtItems(pages, k) + ItemsBetween(pages, k + 1, m)
  }

  /**
   * Collecting from page `k` succeeds exactly when paging ends at an empty or
   * failed page rather than at a page that raises; the prompts are then those of
   * every page before it, in page order, and a crash is the last page's.
   */
  lemma {:induction false} JoestarFromSpec(pages: seq<Option<Json>>, k: nat)
    requires k <= |pages|
    ensures var m := LastPage(pages, k);
      && (JoestarFrom(pages, k).Ok? <==> EndOfData(PageAt(pages, m)))
      && (JoestarFrom(pages, k).Ok? ==> JoestarFrom(pages, k).value == ItemsBetween(pages, k, m))
      && (JoestarFrom(pages, k).Err? ==> PageItems(PageAt(pages, m).value) == Err(JoestarFrom(pages, k).error))
    decreases |pages| - k
  {
    var page := PageAt(pages, k);
    if !(EndOfData(page) || PageItems(page.value).Err?) {
      JoestarFromSpec(pages, k + 1);
    }
  }

  lemma PrependAssoc(a: seq<Prompt>, b: seq<Prompt>, r: Result<seq<Prompt>, Crash>)
    ensures Prepend(a, Prepend(b, r)) == Prepend(a + b, r)
  {
    if r.Ok? {
      assert a + (b + r.value) == (a + b) + r.value;
    }
  }

  /**
   * `JoestarMarket.get_prompts` (generate.py:35-69): requests pages at skip 0, 16,
   * 32, ... until a request fails or returns an empty page, and collects the
   * prompts of every page before it. `skips` lists the `skip` of each request.
   */
  method JoestarGetPrompts(pages: seq<Option<Json>>) returns (r: Result<seq<Prompt>, Crash>, skips: seq<int>)
    ensures r == JoestarFrom(pages, 0)
    ensures |skips| == LastPage(pages, 0) + 1
    ensures forall i :: 0 <= i < |skips| ==> skips[i] == PageSize * i
  {
    var allExtracted: seq<Prompt> := [];
    var currentSkip := 0;
    var k := 0;
    skips := [];
    assert Prepend([], JoestarFrom(pages, 0)) == JoestarFrom(pages, 0) by {
      if JoestarFrom(pages, 0).Ok? {
        assert [] + JoestarFrom(pages, 0).value == JoestarFrom(pages, 0).value;
      }
    }
    while true
      invariant 0 <= k <= |pages| && currentSkip == PageSize * k
      invariant |skips| == k && forall i :: 0 <= i < k ==> skips[i] == PageSize * i
      invariant JoestarFrom(pages, 0) == Prepend(allExtracted, JoestarFrom(pages, k))
      invariant LastPage(pages, 0) == LastPage(pages, k)
      decreases |pages| - k
    {
      skips := skips + [currentSkip];
      var promptsOnPage := PageAt(pages, k);
      if EndOfData(promptsOnPage) {
        assert allExtracted + [] == allExtracted;
        r := Ok(allExtracted);
        return;
      }
      match PageItems(promptsOnPage.value)
      case Err(e) =>
        r := Err(e);
        return;
      case Ok(items) =>
        PrependAssoc(allExtracted, items, JoestarFrom(pages, k + 1));
        allExtracted := allExtracted + items;
      currentSkip := currentSkip + PageSize;
      k := k + 1;
    }
  }

  /** Pagination stops at the first failed or empty page: every page before it was non-empty. */
  lemma {:induction false} LastPageSpec(pages: seq<Option<Json>>, k: nat)
    requires k <= |pages|
    ensures var m := LastPage(pages, k);
      && (forall i :: k <= i < m ==> !EndOfData(PageAt(pages, i)))
      && (EndOfData(PageAt(pages, m)) || PageItems(PageAt(pages, m).value).Err?)
    decreases |pages| - k
  {
    var page := PageAt(pages, k);
    if !(EndOfData(page) || PageItems(page.value).Err?) {
      LastPageSpec(pages, k + 1);
    }
  }

  /** One item of the VmoranvMarket list (generate.py:96-114); `None` when it is skipped. */
  function VmoranvItem(item: Json): (r: Result<Option<Prompt>, Crash>)
    ensures !Published(item) ==> r == Ok(None)
    ensures r.Ok? ==> (r.value.Some? <==> Published(item))
  {
    if !item.Object? || Field(item, "status", Null) != Str("published") then Ok(None)
    else
      var authorInfo := Field(item, "author", Object([]));
      match Get(authorInfo, "name", Str(DefaultAuthor))
      case None => Err(AttributeError)
      case Some(author) =>
        match MakePrompt(Field(item, "title", Str(DefaultTitle)), author,
                         TagTexts(Field(item, "tags", Array([]))), Field(item, "content", Str(DefaultContent)))
        case Ok(p) => Ok(Some(p))
        case Err(e) => Err(e)
  }

  /**
   * The fields of a VmoranvMarket prompt (generate.py:103-107): a present title or
   * content is the string stored there and a missing one is "无标题" or "无内容";
   * the author is the author dict's "name", "匿名用户" when there is no author or
   * no name; the tags are the strings of a tags list, or the keys of a tags dict,
   * none when there are no tags.
   */
  lemma VmoranvDefaults(item: Json)
    requires Published(item) && VmoranvItem(item).Ok?
    ensures VmoranvItem(item).value.Some?
    ensures var p := VmoranvItem(item).value.value;
      && (Lookup(item.members, "title").None? ==> p.title == DefaultTitle)
      && (Lookup(item.members, "title").Some? ==> Lookup(item.members, "title") == Some(Str(p.title)))
      && (Lookup(item.members, "content").None? ==> p.content == DefaultContent)
      && (Lookup(item.members, "content").Some? ==> Lookup(item.members, "content") == Some(Str(p.content)))
      && (Lookup(item.members, "author").None? ==> p.author == DefaultAuthor)
      && (Lookup(item.members, "tags").None? ==> p.tags == [])
    ensures var p := VmoranvItem(item).value.value;
      match Lookup(item.members, "author")
      case None => true
      case Some(author) =>
        && author.Object?
        && (Lookup(author.members, "name").None? ==> p.author == DefaultAuthor)
        && (Lookup(author.members, "name").Some? ==> Lookup(author.members, "name") == Some(Str(p.author)))
    ensures var p := VmoranvItem(item).value.value;
      match Lookup(item.members, "tags")
      case Some(Array(tags)) =>
        |p.tags| == |tags| && forall k :: 0 <= k < |tags| ==> tags[k] == Str(p.tags[k])
      case Some(Object(members)) =>
        |p.tags| == |KeysOf(members)| && forall k :: 0 <= k < |p.tags| ==> KeysOf(members)[k] == Str(p.tags[k])
      case _ => true
  {
    if Lookup(item.members, "author").None? {
      assert Field(item, "author", Object([])) == Object([]);
    }
  }

  /** A tags dict that repeats a key yields that key once, as iterating the stored dict does. */
  lemma VmoranvRepeatedTagKey()
    ensures var tags := Object([("x", Number(1)), ("x", Number(2))]);
      var item := Object([("status", Str("published")), ("title", Str("t")), ("content", Str("c")), ("tags", tags)]);
      VmoranvItem(item) == Ok(Some(Prompt("t", DefaultAuthor, ["x"], "c")))
  {
    var tags := Object([("x", Number(1)), ("x", Number(2))]);
    RepeatedKeyTexts();
    ExampleFields(tags);
  }

  lemma RepeatedKeyTexts()
    ensures TagTexts(Object([("x", Number(1)), ("x", Number(2))])) == Ok(["x"])
  {
    var members := [("x", Number(1)), ("x", Number(2))];
    KeysOfRepeated(members[..1], "x", Number(2));
    assert members[..1] + [("x", Number(2))] == members;
    assert KeysOf(members) == [Str("x")];
    assert [Str("x")][1..] == [];
    assert ["x"] + [] == ["x"];
  }

  lemma ExampleFields(tags: Json)
    ensures var item := Object([("status", Str("published")), ("title", Str("t")), ("content", Str("c")), ("tags", tags)]);
      && Field(item, "status", Null) == Str("published")
      && Field(item, "title", Str(DefaultTitle)) == Str("t")
      && Field(item, "content", Str(DefaultContent)) == Str("c")
      && Field(item, "author", Object([])) == Object([])
      && Field(item, "tags", Array([])) == tags
  {
    var fields := [("status", Str("published")), ("title", Str("t")), ("content", Str("c")), ("tags", tags)];
    assert fields[..3][..2] == fields[..2] && fields[..2][..1] == fields[..1];
    assert Lookup(fields[..3], "content") == Some(Str("c"));
    assert Lookup(fields[..2], "title") == Some(Str("t"));
    assert Lookup(fields[..3], "title") == Some(Str("t"));
    assert Lookup(fields[..1], "status") == Some(Str("published"));
    assert Lookup(fields[..2], "status") == Some(Str("published"));
    assert Lookup(fields[..3], "status") == Some(Str("published"));
  }

  function VmoranvItems(items: seq<Json>): (r: Result<seq<Prompt>, Crash>)
  {
    if items == [] then Ok([])
    else match (VmoranvItem(items[0]), VmoranvItems(items[1..]))
      case (Ok(p), Ok(rest)) => Ok((if p.Some? then [p.value] else []) + rest)
      case (Err(e), _) => Err(e)
      case (_, Err(e)) => Err(e)
  }

  predicate Published(item: Json)
  {
    item.Object? && Field(item, "status", Null) == Str("published")
  }

  function CountPublished(items: seq<Json>): (r: nat)
  {
    if items == [] then 0 else (if Published(items[0]) then 1 else 0) + CountPublished(items[1..])
  }

  /** Only published dict items are kept, one prompt each, in order. */
  lemma {:induction false} VmoranvItemsSpec(items: seq<Json>)
    requires VmoranvItems(items).Ok?
    ensures |VmoranvItems(items).value| == CountPublished(items)
    decreases |items|
  {
    if items != [] {
      VmoranvItemsSpec(items[1..]);
    }
  }

  /** The list is extracted item by item, the first item that raises ending extraction. */
  lemma {:induction false} VmoranvItemsAppend(a: seq<Json>, b: seq<Json>)
    ensures VmoranvItems(a + b) == if VmoranvItems(a).Err? then VmoranvItems(a) else Prepend(VmoranvItems(a).value, VmoranvItems(b))
    decreases |a|
  {
    if a == [] {
      assert a + b == b;
      if VmoranvItems(b).Ok? {
        assert [] + VmoranvItems(b).value == VmoranvItems(b).value;
      }
    } else {
      assert (a + b)[0] == a[0] && (a + b)[1..] == a[1..] + b;
      VmoranvItemsAppend(a[1..], b);
      if VmoranvItem(a[0]).Ok? && VmoranvItems(a[1..]).Ok? {
        PrependAssoc(if VmoranvItem(a[0]).value.Some? then [VmoranvItem(a[0]).value.value] else [],
                     VmoranvItems(a[1..]).value, VmoranvItems(b));
      }
    }
  }

  /** One item yields its prompt when it is a published dict, nothing otherwise, or the crash it raises. */
  lemma VmoranvItemsSingle(item: Json)
    ensures VmoranvItem(item).Err? ==> VmoranvItems([item]) == Err(VmoranvItem(item).error)
    ensures VmoranvItem(item).Ok? ==>
      VmoranvItems([item]) == Ok(if Published(item) then [VmoranvItem(item).value.value] else [])
  {
    assert [item][1..] == [];
    if VmoranvItem(item).Ok? {
      var one: seq<Prompt> := if Published(item) then [VmoranvItem(item).value.value] else [];
      assert one + [] == one;
    }
  }

  /**
   * `VmoranvMarket.get_prompts` (generate.py:86-117) on the decoded response, or
   * `None` when the request failed: `None.get` then raises, ending the run.
   */
  function VmoranvGetPrompts(response: Option<Json>): (r: Result<seq<Prompt>, Crash>)
    ensures response.None? ==> r == Err(AttributeError)
    ensures response.Some? && response.value.Object? && Lookup(response.value.members, "data").None? ==> r == Ok([])
  {
    match response
    case None => Err(AttributeError)
    case Some(body) =>
      match Get(body, "data", Object([]))
      case None => Err(AttributeError)
      case Some(data) =>
        if !Truthy(data) then Ok([])
        else match Iterate(data)
          case None => Err(TypeError)
          case Some(items) => VmoranvItems(items)
  }
}
