/** The service selector built inside `render`: one option per distinct
    service name (the first entry for a name wins), in input order, each
    marked selected when its uri equals the current prefix, followed by a
    trailing `custom` option whose value is the empty string. The DOM
    `select` is a sequence of option records. */
module ServiceOptions {

  /** An entry of the `/service/list` reply. */
  datatype Service = Service(name: string, uri: string)

  /** An `option` element: its text, its value and its `selected` flag. */
  datatype SelectOption = SelectOption(text: string, value: string, selected: bool)

  /** The trailing option: page-relative URIs, never marked selected. */
  const Custom: SelectOption := SelectOption("custom", "", false)

  /** The names occurring in a service list. */
  function Names(xs: seq<Service>): set<string>
  {
    set k | 0 <= k < |xs| :: xs[k].name
  }

  /** No earlier entry has the name of entry `p`. */
  predicate IsFirst(xs: seq<Service>, p: nat)
    requires p < |xs|
  {
    forall q | 0 <= q < p :: xs[q].name != xs[p].name
  }

  /** Reference definition of the dedup: scanning left to right, an entry is
      kept exactly when its name has not been seen before. */
  function FirstOccurrences(xs: seq<Service>): seq<Service>
  {
    if xs == [] then []
    else
      var init := xs[..|xs| - 1];
      FirstOccurrences(init) + (if xs[|xs| - 1].name in Names(init) then [] else [xs[|xs| - 1]])
  }

  /** The option built for one service (source lines 26-31). */
  function OptionFor(srv: Service, uriPrefix: string): SelectOption
  {
    SelectOption(srv.name, srv.uri, srv.uri == uriPrefix)
  }

  function OptionsFor(ds: seq<Service>, uriPrefix: string): seq<SelectOption>
  {
    if ds == [] then []
    else OptionsFor(ds[..|ds| - 1], uriPrefix) + [OptionFor(ds[|ds| - 1], uriPrefix)]
  }

  /** The whole selector: the deduplicated options, then `custom`. */
  function Options(services: seq<Service>, uriPrefix: string): seq<SelectOption>
  {
    OptionsFor(FirstOccurrences(services), uriPrefix) + [Custom]
  }

  // ---- the loop of `render` ----

  /** The `for` loop over the service list with its `seen` set, then the
      trailing `custom` option. */
  method BuildOptions(services: seq<Service>, uriPrefix: string) returns (sel: seq<SelectOption>)
    ensures sel == Options(services, uriPrefix)
    ensures |sel| == |Names(services)| + 1
    ensures sel[|sel| - 1] == Custom
    ensures forall k | 0 <= k < |sel| - 1 :: sel[k].selected <==> sel[k].value == uriPrefix
    ensures forall a, b | 0 <= a < b < |sel| - 1 :: sel[a].text != sel[b].text
    ensures forall p | 0 <= p < |services| && IsFirst(services, p) ::
              OptionFor(services[p], uriPrefix) in sel[..|sel| - 1]
  {
    sel := [];
    var seen: set<string> := {};
    var i := 0;
    while i < |services|
      invariant 0 <= i <= |services|
      invariant seen == Names(services[..i])
      invariant sel == OptionsFor(FirstOccurrences(services[..i]), uriPrefix)
    {
      var srv := services[i];
      ghost var pre := services[..i];
      assert services[..i + 1] == pre + [srv];
      NamesSnoc(pre, srv);
      FirstOccurrencesSnoc(pre, srv);
      if srv.name in seen {
        assert FirstOccurrences(pre + [srv]) == FirstOccurrences(pre);
        i := i + 1;
        continue;
      }
      assert FirstOccurrences(pre + [srv]) == FirstOccurrences(pre) + [srv];
      OptionsForSnoc(FirstOccurrences(pre), srv, uriPrefix);
      sel := sel + [OptionFor(srv, uriPrefix)];
      seen := seen + {srv.name};
      i := i + 1;
    }
    assert services[..i] == services;
    sel := sel + [Custom];
    OptionsFacts(services, uriPrefix);
  }

  /** What the selector holds: one option per distinct name, the first
      entry of each name among them, `selected` exactly when the uri is the
      current prefix, and `custom` last. */
  lemma OptionsFacts(services: seq<Service>, uriPrefix: string)
    ensures var sel := Options(services, uriPrefix);
      && |sel| == |Names(services)| + 1
      && sel[|sel| - 1] == Custom
      && (forall k | 0 <= k < |sel| - 1 :: sel[k].selected <==> sel[k].value == uriPrefix)
      && (forall a, b | 0 <= a < b < |sel| - 1 :: sel[a].text != sel[b].text)
      && (forall p | 0 <= p < |services| && IsFirst(services, p) ::
            OptionFor(services[p], uriPrefix) in sel[..|sel| - 1])
  {
    var ds := FirstOccurrences(services);
    var sel := Options(services, uriPrefix);
    OptionsForFacts(ds, uriPrefix);
    FirstOccurrencesDistinct(services);
    FirstOccurrencesNames(services);
    DistinctCount(ds);
    FirstOccurrencesKeepFirst(services);
    assert sel[..|sel| - 1] == OptionsFor(ds, uriPrefix);
    forall p | 0 <= p < |services| && IsFirst(services, p)
      ensures OptionFor(services[p], uriPrefix) in sel[..|sel| - 1]
    {
      var k :| 0 <= k < |ds| && ds[k] == services[p];
      assert sel[..|sel| - 1][k] == OptionFor(services[p], uriPrefix);
    }
  }

  // ---- lemmas about the reference definition ----

  lemma NamesSnoc(xs: seq<Service>, x: Service)
    ensures Names(xs + [x]) == Names(xs) + {x.name}
  {
    var ys := xs + [x];
    assert forall k | 0 <= k < |xs| :: ys[k] == xs[k];
    assert ys[|xs|] == x;
  }

  lemma FirstOccurrencesSnoc(xs: seq<Service>, x: Service)
    ensures FirstOccurrences(xs + [x]) == FirstOccurrences(xs) + (if x.name in Names(xs) then [] else [x])
  {
    assert (xs + [x])[..|xs|] == xs;
  }

  lemma OptionsForSnoc(ds: seq<Service>, d: Service, uriPrefix: string)
    ensures OptionsFor(ds + [d], uriPrefix) == OptionsFor(ds, uriPrefix) + [OptionFor(d, uriPrefix)]
  {
    assert (ds + [d])[..|ds|] == ds;
  }

  /** Appending an entry does not change which earlier entries are first. */
  lemma IsFirstSnoc(xs: seq<Service>, x: Service, p: nat)
    requires p < |xs|
    ensures IsFirst(xs + [x], p) == IsFirst(xs, p)
  {
    var ys := xs + [x];
    assert forall q | 0 <= q <= p :: ys[q] == xs[q];
  }

  lemma {:induction false} OptionsForFacts(ds: seq<Service>, uriPrefix: string)
    ensures |OptionsFor(ds, uriPrefix)| == |ds|
    ensures forall k | 0 <= k < |ds| :: OptionsFor(ds, uriPrefix)[k] == OptionFor(ds[k], uriPrefix)
    decreases |ds|
  {
    if ds != [] {
      OptionsForFacts(ds[..|ds| - 1], uriPrefix);
    }
  }

  /** The kept entries carry exactly the names of the whole list. */
  lemma {:induction false} FirstOccurrencesNames(xs: seq<Service>)
    ensures Names(FirstOccurrences(xs)) == Names(xs)
    decreases |xs|
  {
    if xs != [] {
      var init, x := xs[..|xs| - 1], xs[|xs| - 1];
      assert xs == init + [x];
      FirstOccurrencesNames(init);
      NamesSnoc(init, x);
      FirstOccurrencesSnoc(init, x);
      if x.name !in Names(init) {
        NamesSnoc(FirstOccurrences(init), x);
        calc {
          Names(FirstOccurrences(xs));
          Names(FirstOccurrences(init) + [x]);
          Names(FirstOccurrences(init)) + {x.name};
          Names(init) + {x.name};
          Names(xs);
        }
      } else {
        assert FirstOccurrences(xs) == FirstOccurrences(init);
        assert Names(xs) == Names(init) + {x.name};
      }
    }
  }

  /** The kept entries have pairwise distinct names. */
  lemma {:induction false} FirstOccurrencesDistinct(xs: seq<Service>)
    ensures forall a, b | 0 <= a < b < |FirstOccurrences(xs)| ::
      FirstOccurrences(xs)[a].name != FirstOccurrences(xs)[b].name
    decreases |xs|
  {
    if xs != [] {
      var init, x := xs[..|xs| - 1], xs[|xs| - 1];
      assert xs == init + [x];
      FirstOccurrencesDistinct(init);
      FirstOccurrencesNames(init);
      FirstOccurrencesSnoc(init, x);
      var d := FirstOccurrences(init);
      if x.name !in Names(init) {
        forall a | 0 <= a < |d| ensures d[a].name != x.name {
          assert d[a].name in Names(d);
        }
      }
    }
  }

  /** A list with pairwise distinct names has as many entries as names. */
  lemma {:induction false} DistinctCount(ds: seq<Service>)
    requires forall a, b | 0 <= a < b < |ds| :: ds[a].name != ds[b].name
    ensures |Names(ds)| == |ds|
    decreases |ds|
  {
    if ds != [] {
      var init, x := ds[..|ds| - 1], ds[|ds| - 1];
      assert ds == init + [x];
      DistinctCount(init);
      NamesSnoc(init, x);
      assert x.name !in Names(init) by {
        forall k | 0 <= k < |init| ensures init[k].name != x.name {
          assert init[k] == ds[k];
        }
      }
    }
  }

  /** Every kept entry is the first entry with its name, and the kept entries
      keep their input order: `idx` gives their positions in `xs`, strictly
      increasing. */
  lemma {:induction false} FirstOccurrencesIndices(xs: seq<Service>) returns (idx: seq<nat>)
    ensures |idx| == |FirstOccurrences(xs)|
    ensures forall k | 0 <= k < |idx| ::
      idx[k] < |xs| && IsFirst(xs, idx[k]) && FirstOccurrences(xs)[k] == xs[idx[k]]
    ensures forall a, b | 0 <= a < b < |idx| :: idx[a] < idx[b]
    decreases |xs|
  {
    if xs == [] {
      idx := [];
    } else {
      var init, x := xs[..|xs| - 1], xs[|xs| - 1];
      assert xs == init + [x];
      var prev := FirstOccurrencesIndices(init);
      FirstOccurrencesSnoc(init, x);
      forall k | 0 <= k < |prev| ensures IsFirst(xs, prev[k]) {
        IsFirstSnoc(init, x, prev[k]);
      }
      if x.name in Names(init) {
        idx := prev;
      } else {
        idx := prev + [|init|];
        assert IsFirst(xs, |init|) by {
          forall q | 0 <= q < |init| ensures xs[q].name != x.name {
            assert xs[q] == init[q];
          }
        }
      }
    }
  }

  /** The first entry for every name is kept. */
  lemma {:induction false} FirstOccurrencesKeepFirst(xs: seq<Service>)
    ensures forall p | 0 <= p < |xs| && IsFirst(xs, p) :: xs[p] in FirstOccurrences(xs)
    decreases |xs|
  {
    if xs != [] {
      var init, x := xs[..|xs| - 1], xs[|xs| - 1];
      assert xs == init + [x];
      FirstOccurrencesKeepFirst(init);
      FirstOccurrencesSnoc(init, x);
      forall p | 0 <= p < |xs| && IsFirst(xs, p) ensures xs[p] in FirstOccurrences(xs) {
        if p < |init| {
          IsFirstSnoc(init, x, p);
          assert init[p] == xs[p];
        } else {
          assert x.name !in Names(init) by {
            forall q | 0 <= q < |init| ensures init[q].name != x.name {
              assert init[q] == xs[q];
            }
          }
        }
      }
    }
  }

  /** The first service is always kept, in front. */
  lemma {:induction false} FirstOccurrencesHead(xs: seq<Service>)
    requires xs != []
    ensures FirstOccurrences(xs) != [] && FirstOccurrences(xs)[0] == xs[0]
    decreases |xs|
  {
    var init := xs[..|xs| - 1];
    if init == [] {
      assert Names(init) == {};
    } else {
      FirstOccurrencesHead(init);
      assert init[0] == xs[0];
    }
  }

  // ---- the `seen` lookup as written ----

  /** Property names every JavaScript object literal inherits from
      `Object.prototype`; looking one up in `seen = {}` yields a function or
      the prototype object, both truthy. */
  const InheritedKeys: set<string> :=
    {"constructor", "hasOwnProperty", "isPrototypeOf", "propertyIsEnumerable",
     "toLocaleString", "toString", "valueOf", "__proto__",
     "__defineGetter__", "__defineSetter__", "__lookupGetter__", "__lookupSetter__"}

  /** The dedup as the source writes it: `if (seen[srv.name]) continue;`
      also skips every entry whose name is an inherited property. */
  function FirstOccurrencesAsWritten(xs: seq<Service>): seq<Service>
  {
    if xs == [] then []
    else
      var init := xs[..|xs| - 1];
      var x := xs[|xs| - 1];
      FirstOccurrencesAsWritten(init) + (if x.name in Names(init) || x.name in InheritedKeys then [] else [x])
  }

  /** A service named `constructor` never gets an option as written, although
      it is the first (and only) entry with its name. */
  lemma InheritedNameHidden()
    ensures FirstOccurrencesAsWritten([Service("constructor", "u")]) == []
    ensures FirstOccurrences([Service("constructor", "u")]) == [Service("constructor", "u")]
  {
    var xs := [Service("constructor", "u")];
    assert xs[..0] == [];
    assert Names([]) == {};
  }

  /** With no inherited name in the list, the source's lookup and the
      set-based dedup agree. */
  lemma {:induction false} AsWrittenAgrees(xs: seq<Service>)
    requires forall k | 0 <= k < |xs| :: xs[k].name !in InheritedKeys
    ensures FirstOccurrencesAsWritten(xs) == FirstOccurrences(xs)
    decreases |xs|
  {
    if xs != [] {
      var init := xs[..|xs| - 1];
      assert forall k | 0 <= k < |init| :: init[k] == xs[k];
      AsWrittenAgrees(init);
    }
  }
}
