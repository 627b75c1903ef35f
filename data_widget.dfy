/** The `Data` widget: `render` resolves its arguments into the query state
    (the module-level `uriPrefix` and the path), builds the service selector,
    the path input and the load button, and shows the highlighted reply of
    `uriPrefix + path`. The two replies (`/service/list` and the data) are
    parameters; the page is the `View` record returned. */
module DataWidget {
  import opened Wrappers
  import opened ServiceOptions
  import Highlighter

  /** The `args` object: each of its two properties present or absent. */
  datatype Args = Args(path: Option<string>, api: Option<string>)

  /** The path shown when `args` has no `path` property. */
  const DefaultPath: string := "/species/at/chromosomes"

  /** What `render` decides from its arguments: the new `uriPrefix` and the path. */
  datatype Query = Query(uriPrefix: string, path: string)

  /** Lines 10-15: a missing `path` falls back to the default, a missing
      `API` resets the prefix to the empty (page-relative) prefix. */
  function Resolve(args: Args): Query
  {
    Query(if args.api.Some? then args.api.value else "",
          if args.path.Some? then args.path.value else DefaultPath)
  }

  /** The URL `getJSON` requests for a query (line 85). */
  function FetchUrl(q: Query): (url: string)
    ensures |url| == |q.uriPrefix| + |q.path|
    ensures url[..|q.uriPrefix|] == q.uriPrefix && url[|q.uriPrefix|..] == q.path
  {
    q.uriPrefix + q.path
  }

  /** The arguments the load button passes back to `render` (lines 47-52). */
  function LoadArgs(selValue: string, inputValue: string): Args
  {
    Args(Some(inputValue), Some(selValue))
  }

  /** The position of the last option whose `selected` flag was set. */
  function LastSelected(opts: seq<SelectOption>): (r: Option<nat>)
    ensures r.Some? ==>
      (r.value < |opts| && opts[r.value].selected && forall j | r.value < j < |opts| :: !opts[j].selected)
    ensures r.None? ==> forall j | 0 <= j < |opts| :: !opts[j].selected
  {
    if opts == [] then None
    else if opts[|opts| - 1].selected then Some(|opts| - 1)
    else LastSelected(opts[..|opts| - 1])
  }

  /** `sel.value` of a single-choice `select`: setting an option's
      `selected` deselects the others, so the last flagged option wins;
      with none flagged the first option is shown; an empty select has
      value `""`. */
  function SelectValue(opts: seq<SelectOption>): string
  {
    match LastSelected(opts)
    case Some(k) => opts[k].value
    case None => if opts == [] then "" else opts[0].value
  }

  /** The value sanitization of a text `input`: assigning its `value`
      (line 42) strips every line feed and carriage return. */
  function StripNewlines(s: string): (r: string)
    ensures |r| <= |s|
  {
    if s == [] then []
    else (if s[0] == '\n' || s[0] == '\r' then [] else [s[0]]) + StripNewlines(s[1..])
  }

  /** The sanitized value holds no line break. */
  lemma {:induction false} StripNewlinesClean(s: string)
    ensures '\n' !in StripNewlines(s) && '\r' !in StripNewlines(s)
  {
    if s != [] {
      StripNewlinesClean(s[1..]);
    }
  }

  /** Sanitization works piece by piece: every character other than LF and
      CR survives, in order. */
  lemma {:induction false} StripNewlinesAppend(a: string, b: string)
    ensures StripNewlines(a + b) == StripNewlines(a) + StripNewlines(b)
  {
    if a != [] {
      assert (a + b)[1..] == a[1..] + b;
      StripNewlinesAppend(a[1..], b);
    } else {
      assert a + b == b;
    }
  }

  /** A value without line breaks is left as it is. */
  lemma {:induction false} StripNewlinesKeeps(s: string)
    requires '\n' !in s && '\r' !in s
    ensures StripNewlines(s) == s
  {
    if s != [] {
      assert s[0] in s;
      assert forall c | c in s[1..] :: c in s;
      StripNewlinesKeeps(s[1..]);
      assert s == [s[0]] + s[1..];
    }
  }

  /** What the widget's div holds once both replies have arrived: the
      selector, the path input's value, the URL of the data request and the
      `pre` element's HTML. */
  datatype View = View(options: seq<SelectOption>, input: string, fetchUrl: string, pre: string)

  /** `render` either throws (no `args` object: `args.hasOwnProperty` on
      `undefined`) or draws the view. */
  datatype Outcome = TypeError | Rendered(view: View)

  /** The page for a resolved query. */
  function ViewOf(q: Query, services: seq<Service>, pretty: string): View
  {
    View(Options(services, q.uriPrefix), StripNewlines(q.path), FetchUrl(q), Highlighter.SyntaxHighlight(pretty))
  }

  /** The widget with its module-level `uriPrefix`. */
  class Widget {
    var uriPrefix: string

    /** Line 2: the prefix starts as the data URI of the page. */
    constructor(dataUri: string)
      ensures uriPrefix == dataUri
    {
      uriPrefix := dataUri;
    }

    /** `widget.render(divId, args)`, with `services` the `/service/list`
        reply and `pretty` the `JSON.stringify(obj, undefined, 4)` text of
        the data reply. */
    method Render(args: Option<Args>, services: seq<Service>, pretty: string) returns (out: Outcome)
      modifies this
      ensures args.None? ==> out == TypeError && uriPrefix == old(uriPrefix)
      ensures args.Some? ==>
        (uriPrefix == Resolve(args.value).uriPrefix && out == Rendered(ViewOf(Resolve(args.value), services, pretty)))
    {
      if args.None? {
        return TypeError;
      }
      var a := args.value;
      var path := if a.path.Some? then a.path.value else DefaultPath;
      if a.api.Some? {
        uriPrefix := a.api.value;
      } else {
        uriPrefix := "";
      }
      var sel := BuildOptions(services, uriPrefix);
      var input := StripNewlines(path);
      var url := uriPrefix + path;
      out := Rendered(View(sel, input, url, Highlighter.SyntaxHighlight(pretty)));
    }

    /** A click on the load button of a drawn view: render again with the
        selector's value as `API` and the input's value as `path`. */
    method Load(shown: View, services: seq<Service>, pretty: string) returns (out: Outcome)
      modifies this
      ensures uriPrefix == SelectValue(shown.options)
      ensures out == Rendered(ViewOf(Query(SelectValue(shown.options), shown.input), services, pretty))
    {
      out := Render(Some(LoadArgs(SelectValue(shown.options), shown.input)), services, pretty);
    }
  }

  // ---- properties ----

  /** The load button hands back exactly the selector's and the input's values. */
  lemma {:induction false} LoadArgsResolve(selValue: string, inputValue: string)
    ensures Resolve(LoadArgs(selValue, inputValue)) == Query(selValue, inputValue)
    ensures LoadArgs(selValue, inputValue).api.Some? && LoadArgs(selValue, inputValue).path.Some?
  {
  }

  /** With both properties absent, the prefix is empty and the path is the default. */
  lemma {:induction false} ResolveDefaults()
    ensures Resolve(Args(None, None)) == Query("", DefaultPath)
    ensures FetchUrl(Resolve(Args(None, None))) == "/species/at/chromosomes"
  {
  }

  /** When some service's first entry has the current prefix as its uri, the
      selector's value is that prefix. */
  lemma PrefixOffered(services: seq<Service>, uriPrefix: string, p: nat)
    requires p < |services| && IsFirst(services, p) && services[p].uri == uriPrefix
    ensures SelectValue(Options(services, uriPrefix)) == uriPrefix
  {
    var sel := Options(services, uriPrefix);
    OptionsFacts(services, uriPrefix);
    assert OptionFor(services[p], uriPrefix) in sel[..|sel| - 1];
    var k :| 0 <= k < |sel| - 1 && sel[k] == OptionFor(services[p], uriPrefix);
    assert sel[k].selected;
  }

  /** When no service's first entry has the current prefix as its uri, no
      option is flagged and the selector shows its first option. */
  lemma PrefixNotOffered(services: seq<Service>, uriPrefix: string)
    requires forall p | 0 <= p < |services| && IsFirst(services, p) :: services[p].uri != uriPrefix
    ensures LastSelected(Options(services, uriPrefix)).None?
    ensures SelectValue(Options(services, uriPrefix)) == Options(services, uriPrefix)[0].value
  {
    var sel := Options(services, uriPrefix);
    var ds := FirstOccurrences(services);
    OptionsFacts(services, uriPrefix);
    OptionsForFacts(ds, uriPrefix);
    var idx := FirstOccurrencesIndices(services);
    forall k | 0 <= k < |sel| ensures !sel[k].selected {
      if k < |ds| {
        assert sel[k] == OptionFor(services[idx[k]], uriPrefix);
      }
    }
  }

  /** Drawing a query and pressing load without touching anything keeps the
      prefix when it is the uri of an offered service, and the path up to the
      input's sanitization; a path without line breaks is kept exactly. */
  lemma ReloadKeepsQuery(q: Query, services: seq<Service>, pretty: string, p: nat)
    requires p < |services| && IsFirst(services, p) && services[p].uri == q.uriPrefix
    ensures var v := ViewOf(q, services, pretty);
      Resolve(LoadArgs(SelectValue(v.options), v.input)) == Query(q.uriPrefix, StripNewlines(q.path))
    ensures var v := ViewOf(q, services, pretty);
      '\n' !in q.path && '\r' !in q.path ==> Resolve(LoadArgs(SelectValue(v.options), v.input)) == q
  {
    PrefixOffered(services, q.uriPrefix, p);
    if '\n' !in q.path && '\r' !in q.path {
      StripNewlinesKeeps(q.path);
    }
  }

  /** Sanitizing `/a` LF `b` gives `/ab`. */
  lemma StripNewlinesExample()
    ensures StripNewlines("/a\nb") == "/ab"
  {
    var path := "/a\nb";
    assert StripNewlines(path[4..]) == [];
    assert StripNewlines(path[3..]) == "b";
    assert StripNewlines(path[2..]) == "b";
    assert StripNewlines(path[1..]) == "ab";
  }

  /** A path holding a line break is not what the load button sends back:
      after prefix `x` and path `/a` LF `b` are drawn, one press requests
      `x/ab` instead of `x/a` LF `b`. */
  lemma NewlineDropped(services: seq<Service>, pretty: string, p: nat)
    requires p < |services| && IsFirst(services, p) && services[p].uri == "x"
    ensures var v := ViewOf(Query("x", "/a\nb"), services, pretty);
      FetchUrl(Resolve(LoadArgs(SelectValue(v.options), v.input))) == "x/ab"
  {
    var q := Query("x", "/a\nb");
    var v := ViewOf(q, services, pretty);
    assert v.options == Options(services, "x") && v.input == StripNewlines(q.path);
    PrefixOffered(services, "x", p);
    StripNewlinesExample();
    assert Resolve(LoadArgs("x", "/ab")) == Query("x", "/ab");
  }

  /** Choosing `custom` (value `""`) and pressing load leaves the empty
      prefix. When no kept service has the uri `""`, the next view flags
      nothing, so it shows the first service, and a second press switches to
      that service's uri with the path as the input sanitized it. */
  lemma CustomNotKept(services: seq<Service>, path: string, pretty: string)
    requires services != []
    requires forall p | 0 <= p < |services| && IsFirst(services, p) :: services[p].uri != ""
    ensures var v := ViewOf(Resolve(LoadArgs("", path)), services, pretty);
      LastSelected(v.options).None? && SelectValue(v.options) == services[0].uri
    ensures var v := ViewOf(Resolve(LoadArgs("", path)), services, pretty);
      Resolve(LoadArgs(SelectValue(v.options), v.input)) == Query(services[0].uri, StripNewlines(path))
  {
    var q := Query("", path);
    assert Resolve(LoadArgs("", path)) == q;
    var ds := FirstOccurrences(services);
    FirstOccurrencesHead(services);
    OptionsForFacts(ds, "");
    PrefixNotOffered(services, "");
    var v := ViewOf(q, services, pretty);
    assert v.options[0] == OptionFor(services[0], "");
  }
}
