/**
  The option list of the metric tag value selector: the tag records of the
  first response page named after the requested metric are flattened into
  `key:"value"` strings, collected in an insertion-ordered set and turned
  into menu entries whose value and label are that string.
 */
module MetricTags {
  import opened InsertionOrderedSet

  /** An optional value, for the `?.` chains of the response. */
  datatype Option<T> = None | Some(value: T)

  /** One observed tag combination, given as the `[key, value]` pairs that
      `Object.entries` enumerates for it, in that order. Keys are distinct in
      real inputs, since they come from one object; the model does not rely
      on it, and a repeated key simply contributes one string per entry. */
  type TagRecord = seq<(string, string)>

  /** One element of the response's `data` array: a metric name and the tag
      records fetched for it. */
  datatype TagPage = TagPage(name: string, tags: seq<TagRecord>)

  /** The body of a tags query; `data` may be missing. */
  datatype MetricsTagsResponse = MetricsTagsResponse(data: Option<seq<TagPage>>)

  /** One entry handed to the select widget. `labelText` is the widget's
      `label` field (`label` is a Dafny keyword) and `options` its list of
      grouped sub-entries. */
  datatype MenuOption = MenuOption(value: string, labelText: string, options: seq<MenuOption>)

  /** The text an entry shows for a tag: the key, a colon, and the value in
      double quotes. Neither part is escaped. */
  function Canonical(key: string, value: string): string {
    key + ":\"" + value + "\""
  }

  /** The strings one record contributes, in entry order. */
  function RecordStrings(rec: TagRecord): seq<string> {
    seq(|rec|, e requires 0 <= e < |rec| => Canonical(rec[e].0, rec[e].1))
  }

  /** True when `s` is the string of some entry of some record of `tags`. */
  ghost predicate Produces(tags: seq<TagRecord>, s: string) {
    exists t, e :: 0 <= t < |tags| && 0 <= e < |tags[t]| && s == Canonical(tags[t][e].0, tags[t][e].1)
  }

  /** Every entry string of `tags`, records in order and entries in order,
      repeats included: the sequence of calls to `add`. */
  function Entries(tags: seq<TagRecord>): (r: seq<string>)
    ensures forall s :: s in r <==> Produces(tags, s)
    decreases |tags|
  {
    if |tags| == 0 then []
    else
      var init := tags[..|tags| - 1];
      var last := tags[|tags| - 1];
      assert tags == init + [last];
      EntriesSnoc(init, last, Entries(init));
      Entries(init) + RecordStrings(last)
  }

  /** Membership in the strings of `init + [last]` splits into the strings of
      `init` and those of `last`. */
  lemma EntriesSnoc(init: seq<TagRecord>, last: TagRecord, prev: seq<string>)
    requires forall s :: s in prev <==> Produces(init, s)
    ensures forall s :: s in prev + RecordStrings(last) <==> Produces(init + [last], s)
  {
    var tags := init + [last];
    forall s | s in prev + RecordStrings(last)
      ensures Produces(tags, s)
    {
      if s in prev {
        var t, e :| 0 <= t < |init| && 0 <= e < |init[t]| && s == Canonical(init[t][e].0, init[t][e].1);
        assert tags[t] == init[t];
      } else {
        var e :| 0 <= e < |last| && RecordStrings(last)[e] == s;
        assert tags[|init|] == last;
      }
    }
    forall s | Produces(tags, s)
      ensures s in prev + RecordStrings(last)
    {
      var t, e :| 0 <= t < |tags| && 0 <= e < |tags[t]| && s == Canonical(tags[t][e].0, tags[t][e].1);
      if t < |init| {
        assert tags[t] == init[t];
        assert Produces(init, s);
      } else {
        assert RecordStrings(last)[e] == s;
      }
    }
  }

  /** True when `pages[i]` is the first page named `name`. */
  ghost predicate IsFirstMatch(pages: seq<TagPage>, name: string, i: int) {
    && 0 <= i < |pages|
    && pages[i].name == name
    && forall j :: 0 <= j < i ==> pages[j].name != name
  }

  /** `pages.filter(p => p.name === name)[0]`: the first page with that name,
      if there is one. */
  function FirstPage(pages: seq<TagPage>, name: string): (r: Option<TagPage>)
    ensures r.None? <==> forall i :: 0 <= i < |pages| ==> pages[i].name != name
    ensures forall i :: IsFirstMatch(pages, name, i) ==> r == Some(pages[i])
    decreases |pages|
  {
    if |pages| == 0 then None
    else if pages[0].name == name then Some(pages[0])
    else
      var r := FirstPage(pages[1..], name);
      assert forall i :: IsFirstMatch(pages, name, i) ==> IsFirstMatch(pages[1..], name, i - 1);
      r
  }

  /** The tag records the options are built from: those of the first page
      whose name equals `metricName` exactly, or none when the response, its
      data or such a page is missing. */
  function SelectedTags(response: Option<MetricsTagsResponse>, metricName: string): (r: seq<TagRecord>)
    ensures response.None? || response.value.data.None? ==> r == []
    ensures response.Some? && response.value.data.Some? ==>
              var pages := response.value.data.value;
              && ((forall i :: 0 <= i < |pages| ==> pages[i].name != metricName) ==> r == [])
              && (forall i :: IsFirstMatch(pages, metricName, i) ==> r == pages[i].tags)
  {
    match response
    case None => []
    case Some(body) =>
      match body.data
      case None => []
      case Some(pages) =>
        match FirstPage(pages, metricName)
        case None => []
        case Some(page) => page.tags
  }

  /** The menu entry for one canonical string. */
  function ToMenuOption(s: string): MenuOption {
    MenuOption(s, s, [])
  }

  /** `Array.from(set).map(...)`: one menu entry per string, in order. */
  function MenuOf(strings: seq<string>): seq<MenuOption> {
    seq(|strings|, k requires 0 <= k < |strings| => ToMenuOption(strings[k]))
  }

  /** The values of a list of menu entries, in order. */
  function Values(options: seq<MenuOption>): (r: seq<string>)
    ensures |r| == |options|
    ensures forall k :: 0 <= k < |options| ==> r[k] == options[k].value
  {
    seq(|options|, k requires 0 <= k < |options| => options[k].value)
  }

  /** The menu built from a sequence of tag records: one entry per distinct
      entry string, in the order the strings first occur. */
  function OptionsFromTags(tags: seq<TagRecord>): (r: seq<MenuOption>)
    ensures forall k :: 0 <= k < |r| ==> r[k].labelText == r[k].value && r[k].options == []
    ensures NoDuplicates(Values(r))
    ensures forall s :: s in Values(r) <==> Produces(tags, s)
    ensures InFirstOccurrenceOrder(Values(r), Entries(tags))
    ensures |r| <= |Entries(tags)|
    ensures tags == [] ==> r == []
  {
    var strings := FromSeq(Entries(tags));
    FromSeqOrder(Entries(tags));
    var r := MenuOf(strings);
    assert Values(r) == strings;
    r
  }

  /** The options the selector offers for `metricName` given the latest
      response: the menu built from the first page named exactly
      `metricName`, and nothing when there is no such page. */
  function Options(response: Option<MetricsTagsResponse>, metricName: string): (r: seq<MenuOption>)
    ensures response.None? || response.value.data.None? ==> r == []
    ensures response.Some? && response.value.data.Some? ==>
              var pages := response.value.data.value;
              && ((forall i :: 0 <= i < |pages| ==> pages[i].name != metricName) ==> r == [])
              && (forall i :: IsFirstMatch(pages, metricName, i) ==>
                    && r == OptionsFromTags(pages[i].tags)
                    && forall s :: s in Values(r) <==> Produces(pages[i].tags, s))
    ensures forall k :: 0 <= k < |r| ==> r[k].labelText == r[k].value && r[k].options == []
    ensures NoDuplicates(Values(r))
  {
    OptionsFromTags(SelectedTags(response, metricName))
  }

  /** The strings of one more record come after those of the records before
      it. */
  lemma EntriesOfPrefix(tags: seq<TagRecord>, t: nat)
    requires t < |tags|
    ensures Entries(tags[..t + 1]) == Entries(tags[..t]) + RecordStrings(tags[t])
  {
    assert tags[..t + 1][..t] == tags[..t];
  }

  /** The strings of a record's first `e + 1` entries extend those of its
      first `e` entries by one. */
  lemma RecordStringsOfPrefix(tag: TagRecord, e: nat)
    requires e < |tag|
    ensures RecordStrings(tag[..e + 1]) == RecordStrings(tag[..e]) + [Canonical(tag[e].0, tag[e].1)]
  {
  }

  /** `Object.entries(tag).forEach(... set.add(...))` for one record: adds
      the record's strings to a set holding those of `before`. */
  method AddRecord(tagNameValueSet: seq<string>, ghost before: seq<string>, tag: TagRecord)
    returns (updated: seq<string>)
    requires tagNameValueSet == FromSeq(before)
    ensures updated == FromSeq(before + RecordStrings(tag))
  {
    updated := tagNameValueSet;
    var e := 0;
    assert before + RecordStrings(tag[..0]) == before;
    while e < |tag|
      invariant 0 <= e <= |tag|
      invariant updated == FromSeq(before + RecordStrings(tag[..e]))
    {
      var name, value := tag[e].0, tag[e].1;
      RecordStringsOfPrefix(tag, e);
      AddAfter(before, RecordStrings(tag[..e]), Canonical(name, value));
      updated := Add(updated, Canonical(name, value));
      e := e + 1;
    }
    assert tag[..e] == tag;
  }

  /** The body of the memoised computation, step by step: look up the page,
      add every entry string of every record to an insertion-ordered set,
      and map the set's contents to menu entries. */
  method CollectOptions(response: Option<MetricsTagsResponse>, metricName: string)
    returns (options: seq<MenuOption>)
    ensures options == Options(response, metricName)
  {
    var tags := SelectedTags(response, metricName);
    var tagNameValueSet: seq<string> := [];
    var t := 0;
    while t < |tags|
      invariant 0 <= t <= |tags|
      invariant tagNameValueSet == FromSeq(Entries(tags[..t]))
    {
      tagNameValueSet := AddRecord(tagNameValueSet, Entries(tags[..t]), tags[t]);
      EntriesOfPrefix(tags, t);
      t := t + 1;
    }
    assert tags[..t] == tags;
    options := MenuOf(tagNameValueSet);
  }

  /** A record all of whose entry strings were already produced adds no
      option; in particular an empty record adds none. */
  lemma {:induction false} RedundantRecordKeepsOptions(tags: seq<TagRecord>, rec: TagRecord)
    requires forall e :: 0 <= e < |rec| ==> Produces(tags, Canonical(rec[e].0, rec[e].1))
    ensures OptionsFromTags(tags + [rec]) == OptionsFromTags(tags)
  {
    assert (tags + [rec])[..|tags|] == tags;
    FromSeqIgnoresSeen(Entries(tags), RecordStrings(rec));
  }

  /** Pages of other metrics, before or after, do not change the options. */
  lemma {:induction false} OtherMetricsIgnored(pages: seq<TagPage>, before: seq<TagPage>, after: seq<TagPage>, metricName: string)
    requires forall j :: 0 <= j < |before| ==> before[j].name != metricName
    requires forall j :: 0 <= j < |after| ==> after[j].name != metricName
    ensures Options(Some(MetricsTagsResponse(Some(before + pages + after))), metricName)
         == Options(Some(MetricsTagsResponse(Some(pages))), metricName)
  {
    var all := before + pages + after;
    if i :| IsFirstMatch(pages, metricName, i) {
      assert all[|before| + i] == pages[i];
      assert IsFirstMatch(all, metricName, |before| + i);
    } else {
      FirstMatchExists(pages, metricName);
      assert forall j :: 0 <= j < |all| ==> all[j].name != metricName;
    }
  }

  /** When any page is named `name`, a first one is. */
  lemma {:induction false} FirstMatchExists(pages: seq<TagPage>, name: string)
    ensures (exists i :: 0 <= i < |pages| && pages[i].name == name) ==> exists i :: IsFirstMatch(pages, name, i)
    decreases |pages|
  {
    if |pages| > 0 {
      if pages[0].name == name {
        assert IsFirstMatch(pages, name, 0);
      } else {
        FirstMatchExists(pages[1..], name);
        if i :| IsFirstMatch(pages[1..], name, i) {
          assert IsFirstMatch(pages, name, i + 1);
        } else {
          assert forall i :: 0 <= i < |pages| && pages[i].name == name ==> pages[1..][i - 1].name == name;
        }
      }
    }
  }

  /** Only the first page named after the metric counts: later pages with the
      same name are ignored. */
  lemma {:induction false} LaterPagesIgnored(pages: seq<TagPage>, later: seq<TagPage>, metricName: string, i: nat)
    requires i < |pages| && pages[i].name == metricName
    ensures Options(Some(MetricsTagsResponse(Some(pages + later))), metricName)
         == Options(Some(MetricsTagsResponse(Some(pages))), metricName)
  {
    FirstMatchExists(pages, metricName);
    var m :| IsFirstMatch(pages, metricName, m);
    assert IsFirstMatch(pages + later, metricName, m);
  }

  /** When keys contain no colon, equal strings come from equal entries. */
  lemma CanonicalInjectiveWithoutColon(k1: string, v1: string, k2: string, v2: string)
    requires ':' !in k1 && ':' !in k2
    requires Canonical(k1, v1) == Canonical(k2, v2)
    ensures k1 == k2 && v1 == v2
  {
    var s := Canonical(k1, v1);
    assert s[|k1|] == ':' && s[|k2|] == ':';
    assert forall j :: 0 <= j < |k1| ==> s[j] == k1[j];
    assert forall j :: 0 <= j < |k2| ==> s[j] == k2[j];
    assert |k1| == |k2|;
    assert k1 == s[..|k1|] && k2 == s[..|k2|];
    assert v1 == s[|k1| + 2..|s| - 1] && v2 == s[|k2| + 2..|s| - 1];
  }

  /** A record with a single entry contributes exactly that entry's string. */
  lemma SingleEntryStrings(key: string, value: string)
    ensures RecordStrings([(key, value)]) == [Canonical(key, value)]
  {
  }

  /** Without escaping, two different entries can print as the same string,
      and the menu then shows them as one option. */
  lemma DistinctEntriesCanMerge()
    ensures ("a:\"b", "c") != ("a", "b:\"c")
    ensures Canonical("a:\"b", "c") == Canonical("a", "b:\"c")
    ensures |OptionsFromTags([[("a:\"b", "c")], [("a", "b:\"c")]])| == 1
  {
    var first: TagRecord := [("a:\"b", "c")];
    var second: TagRecord := [("a", "b:\"c")];
    var merged := "a:\"b:\"c\"";
    assert Canonical("a:\"b", "c") == merged;
    assert Canonical("a", "b:\"c") == merged;
    SingleEntryStrings("a:\"b", "c");
    assert Entries([first]) == [merged] by {
      EntriesOfPrefix([first], 0);
      assert [first][..1] == [first] && [first][..0] == [];
    }
    assert merged in Entries([first]);
    RedundantRecordKeepsOptions([first], second);
    assert [first] + [second] == [[("a:\"b", "c")], [("a", "b:\"c")]];
    assert FromSeq([merged]) == [merged] by {
      FromSeqSnoc([], merged);
      assert [] + [merged] == [merged];
    }
  }

  /** The strings added for the records `{a: "1"}`, `{a: "1"}`, `{b: "2"}`. */
  lemma ExampleEntries(tags: seq<TagRecord>)
    requires tags == [[("a", "1")], [("a", "1")], [("b", "2")]]
    ensures Entries(tags) == ["a:\"1\"", "a:\"1\"", "b:\"2\""]
  {
    assert Canonical("a", "1") == "a:\"1\"" && Canonical("b", "2") == "b:\"2\"";
    SingleEntryStrings("a", "1");
    SingleEntryStrings("b", "2");
    EntriesOfPrefix(tags, 0);
    EntriesOfPrefix(tags, 1);
    EntriesOfPrefix(tags, 2);
    assert tags[..3] == tags && tags[..0] == [];
  }

  /** Repeated entries collapse and first occurrences keep their order:
      records `{a: "1"}`, `{a: "1"}`, `{b: "2"}` give the options `a:"1"`
      and `b:"2"`, in that order. */
  lemma DeduplicationExample(tags: seq<TagRecord>)
    requires tags == [[("a", "1")], [("a", "1")], [("b", "2")]]
    ensures OptionsFromTags(tags)
         == [MenuOption("a:\"1\"", "a:\"1\"", []), MenuOption("b:\"2\"", "b:\"2\"", [])]
  {
    var x, y := "a:\"1\"", "b:\"2\"";
    ExampleEntries(tags);
    assert x != y by { assert x[0] != y[0]; }
    RepeatCollapses(x, y);
    assert MenuOf([x, y]) == [MenuOption(x, x, []), MenuOption(y, y, [])];
  }
}
