/** The metadata helpers of the legacy harvester: picking elements by `xml:lang`, grouping element
    texts by tag, and pruning `None` values from nested dictionaries. The elements are the ones
    `findall` returns, given as values. */
module LegacyMetadata {
  import opened Wrappers
  import opened PyStrings

  /** An element returned by `findall`: its text (`None` for an element without text) and its
      `xml:lang` attribute, if it has one. */
  datatype Element = Element(text: Option<string>, lang: Option<string>)

  /** Python truthiness of an optional string: present and not empty. */
  predicate Truthy(s: Option<string>)
  {
    s.Some? && s.value != ""
  }

  /** An element's text, reading `None` as `""`. */
  function TextOrEmpty(e: Element): string
  {
    if e.text.Some? then e.text.value else ""
  }

  /** Among the first `n` elements, element `i` is the last whose `xml:lang` is `language`. */
  ghost predicate LastInLanguage(elements: seq<Element>, language: string, n: int, i: int)
  {
    0 <= i < n <= |elements| && elements[i].lang == Some(language)
    && forall j :: i < j < n ==> elements[j].lang != Some(language)
  }

  /** Some element among the first `n` has `xml:lang` equal to `language`. */
  ghost predicate HasLanguage(elements: seq<Element>, language: string, n: int)
  {
    exists j :: 0 <= j < n && j < |elements| && elements[j].lang == Some(language)
  }

  /** The text the loop of `get_sigle_element` holds after the given elements: that of the last
      element whose `xml:lang` is the requested language, or `None` when there is none (or no
      language was requested). */
  function LastLangText(elements: seq<Element>, language: Option<string>): Option<string>
  {
    if elements == [] then None
    else
      var e := elements[|elements| - 1];
      if Truthy(language) && e.lang.Some? && e.lang.value == language.value then e.text
      else LastLangText(elements[..|elements| - 1], language)
  }

  /** The loop's text is that of the last element in the requested language when some element
      is in it, and `None` otherwise. */
  lemma {:induction false} LastLangTextIsLast(elements: seq<Element>, language: Option<string>)
    ensures if Truthy(language) && HasLanguage(elements, language.value, |elements|) then
              exists i :: LastInLanguage(elements, language.value, |elements|, i)
                          && LastLangText(elements, language) == elements[i].text
            else
              LastLangText(elements, language) == None
  {
    if elements != [] {
      var n := |elements| - 1;
      var init := elements[..n];
      LastLangTextIsLast(init, language);
      var matches := Truthy(language) && elements[n].lang == Some(language.value);
      assert LastLangText(elements, language)
             == if matches then elements[n].text else LastLangText(init, language);
      if matches {
        assert LastInLanguage(elements, language.value, n + 1, n);
      } else if Truthy(language) && HasLanguage(elements, language.value, n + 1) {
        var j :| 0 <= j < n + 1 && elements[j].lang == Some(language.value);
        assert init[j] == elements[j];
        assert HasLanguage(init, language.value, n);
        var i :| LastInLanguage(init, language.value, n, i) && LastLangText(init, language) == init[i].text;
        LastInLanguageExtends(elements, language.value, i);
      } else if Truthy(language) {
        assert !HasLanguage(init, language.value, n);
      }
    }
  }

  /** An element in another language leaves the last one in `language` where it was. */
  lemma LastInLanguageExtends(elements: seq<Element>, language: string, i: int)
    requires elements != [] && elements[|elements| - 1].lang != Some(language)
    requires LastInLanguage(elements[..|elements| - 1], language, |elements| - 1, i)
    ensures LastInLanguage(elements, language, |elements|, i) && elements[..|elements| - 1][i] == elements[i]
  {
    var n := |elements| - 1;
    forall l | i < l < n + 1
      ensures elements[l].lang != Some(language)
    {
      if l < n {
        assert elements[..n][l] == elements[l];
      }
    }
  }

  /** `get_sigle_element`: never `None`; a single element gives its text whatever its language;
      several give the text of the last one in the requested language, or `""` when no language
      was requested or none matches. */
  method GetSingleElement(elements: seq<Element>, language: Option<string>) returns (result: string)
    ensures |elements| == 0 ==> result == ""
    ensures |elements| == 1 ==> result == TextOrEmpty(elements[0])
    ensures |elements| > 1 ==>
              if Truthy(language) && HasLanguage(elements, language.value, |elements|) then
                exists i :: LastInLanguage(elements, language.value, |elements|, i)
                            && result == TextOrEmpty(elements[i])
              else
                result == ""
  {
    var selected: Option<string> := None;
    if |elements| > 1 {
      for n := 0 to |elements|
        invariant selected == LastLangText(elements[..n], language)
      {
        assert elements[..n + 1][..n] == elements[..n];
        var e := elements[n];
        if Truthy(language) && e.lang.Some? {
          if e.lang.value == language.value {
            selected := e.text;
          }
        }
      }
      assert elements[..|elements|] == elements;
      LastLangTextIsLast(elements, language);
    }
    if |elements| == 1 {
      selected := elements[0].text;
    }
    result := if selected.Some? then selected.value else "";
  }

  /** What `get_multiple_elements` appends for one element: bare text, or a one-entry dictionary
      `{itemname: text}`. */
  datatype Item = Bare(text: string) | Keyed(name: Option<string>, text: string)

  /** The element takes the language branch: a language was requested and the element carries
      `xml:lang`. */
  predicate LanguageBranch(e: Element, language: Option<string>)
  {
    Truthy(language) && e.lang.Some?
  }

  /** The element is appended: its text is present and non-empty, and when it takes the language
      branch its `xml:lang` is the requested language. */
  predicate Kept(e: Element, language: Option<string>)
  {
    Truthy(e.text) && (LanguageBranch(e, language) ==> e.lang == language)
  }

  /** What one pass of `get_multiple_elements`'s loop appends for `e`, if anything: an item is
      appended exactly when the element is kept; it carries the element's non-empty text, it is
      bare exactly when, in the language branch, `itemname == ''`, or, in the other branch,
      `itemname` is falsy, and otherwise it is keyed by `itemname`. */
  function ItemFor(e: Element, itemname: Option<string>, language: Option<string>): (r: Option<Item>)
    ensures r.Some? <==> Kept(e, language)
    ensures r.Some? ==> r.value.text == e.text.value != ""
    ensures r.Some? ==> (r.value.Bare? <==> if LanguageBranch(e, language)
                                           then itemname == Some("") else !Truthy(itemname))
    ensures r.Some? && r.value.Keyed? ==> r.value.name == itemname
  {
    // The text an appended item carries; an element whose text is `None` is never appended.
    var text := TextOrEmpty(e);
    var apend :=
      if Truthy(language) && e.lang.Some? then
        if e.lang.value == language.value then
          if itemname == Some("") then Some(Bare(text)) else Some(Keyed(itemname, text))
        else None
      else if Truthy(itemname) then Some(Keyed(itemname, text))
      else Some(Bare(text));
    if e.text.Some? && e.text.value != "" then apend else None
  }

  /** The items appended for the given elements, in document order. */
  function KeptItems(elements: seq<Element>, itemname: Option<string>, language: Option<string>)
    : seq<Item>
  {
    if elements == [] then []
    else
      var earlier := KeptItems(elements[..|elements| - 1], itemname, language);
      match ItemFor(elements[|elements| - 1], itemname, language)
      case None => earlier
      case Some(item) => earlier + [item]
  }

  /** `get_multiple_elements`: the results are `KeptItems`, that is, the appended items follow
      the kept elements in document order (`sources` gives each item's element), each being what
      `ItemFor` says for its element. */
  method GetMultipleElements(elements: seq<Element>, itemname: Option<string>,
                             language: Option<string>)
    returns (results: seq<Item>, ghost sources: seq<nat>)
    ensures results == KeptItems(elements, itemname, language)
    ensures |results| == |sources| <= |elements|
    ensures forall k, l :: 0 <= k < l < |sources| ==> sources[k] < sources[l]
    ensures forall k :: 0 <= k < |sources| ==>
              sources[k] < |elements| && ItemFor(elements[sources[k]], itemname, language) == Some(results[k])
    ensures forall i :: 0 <= i < |elements| && Kept(elements[i], language) ==> i in sources
  {
    results, sources := [], [];
    for i := 0 to |elements|
      invariant results == KeptItems(elements[..i], itemname, language)
      invariant |results| == |sources| <= i
      invariant forall k, l :: 0 <= k < l < |sources| ==> sources[k] < sources[l]
      invariant forall k :: 0 <= k < |sources| ==>
                  sources[k] < i && ItemFor(elements[sources[k]], itemname, language) == Some(results[k])
      invariant forall j :: 0 <= j < i && Kept(elements[j], language) ==> j in sources
    {
      assert elements[..i + 1][..i] == elements[..i];
      var item := ItemFor(elements[i], itemname, language);
      if item.Some? {
        results := results + [item.value];
        sources := sources + [i];
      }
    }
    assert elements[..|elements|] == elements;
  }

  /** An element as `xml_to_dict` sees it: its tag (with namespace, as `{uri}local`) and text. */
  datatype XmlElement = XmlElement(tag: string, text: Option<string>)

  /** One key of the resulting dictionary with its list of texts. The dictionary is the sequence
      of fields in the order their tags were first met. */
  datatype Field = Field(tag: string, texts: seq<Option<string>>)

  /** The exception `xml_to_dict` raises with `strip_ns=True`: `re` is used but never imported. */
  datatype XmlError = NameError

  /** The elements in the order the loops visit them: path by path, each path's matches in order. */
  function Flatten(found: seq<seq<XmlElement>>): seq<XmlElement>
  {
    if found == [] then [] else Flatten(found[..|found| - 1]) + found[|found| - 1]
  }

  /** `fields[tag].append(text)` on the `defaultdict(list)`. */
  function Append(fields: seq<Field>, tag: string, text: Option<string>): seq<Field>
  {
    if fields == [] then [Field(tag, [text])]
    else if fields[0].tag == tag then [Field(tag, fields[0].texts + [text])] + fields[1..]
    else [fields[0]] + Append(fields[1..], tag, text)
  }

  /** The dictionary after visiting the given elements. */
  function Group(visited: seq<XmlElement>): seq<Field>
  {
    if visited == [] then []
    else
      var e := visited[|visited| - 1];
      Append(Group(visited[..|visited| - 1]), e.tag, e.text)
  }

  /** `fields.get(tag, [])`. */
  function Lookup(fields: seq<Field>, tag: string): seq<Option<string>>
  {
    if fields == [] then []
    else if fields[0].tag == tag then fields[0].texts
    else Lookup(fields[1..], tag)
  }

  /** The texts of the visited elements with the given tag, in visit order. */
  function TextsWithTag(visited: seq<XmlElement>, tag: string): seq<Option<string>>
  {
    if visited == [] then []
    else
      var e := visited[|visited| - 1];
      TextsWithTag(visited[..|visited| - 1], tag) + (if e.tag == tag then [e.text] else [])
  }

  /** The tags of the dictionary, in order. */
  function Tags(fields: seq<Field>): seq<string>
  {
    if fields == [] then [] else [fields[0].tag] + Tags(fields[1..])
  }

  /** The number of texts stored under all keys together. */
  function TotalTexts(fields: seq<Field>): nat
  {
    if fields == [] then 0 else |fields[0].texts| + TotalTexts(fields[1..])
  }

  /** Appending adds the text at the end of its tag's list and leaves other tags alone, adds the
      tag when it is new, and stores one more text. */
  lemma {:induction false} AppendEffect(fields: seq<Field>, tag: string, text: Option<string>)
    ensures forall t :: Lookup(Append(fields, tag, text), t)
                        == if t == tag then Lookup(fields, t) + [text] else Lookup(fields, t)
    ensures Tags(Append(fields, tag, text))
            == if tag in Tags(fields) then Tags(fields) else Tags(fields) + [tag]
    ensures TotalTexts(Append(fields, tag, text)) == TotalTexts(fields) + 1
  {
    if fields != [] && fields[0].tag != tag {
      AppendEffect(fields[1..], tag, text);
      assert Append(fields, tag, text)[1..] == Append(fields[1..], tag, text);
    }
  }

  /** Each key lists exactly the texts of the elements with that tag, in visit order; a tag not
      visited maps to nothing. */
  lemma {:induction false} GroupLookup(visited: seq<XmlElement>, tag: string)
    ensures Lookup(Group(visited), tag) == TextsWithTag(visited, tag)
  {
    if visited != [] {
      var e := visited[|visited| - 1];
      GroupLookup(visited[..|visited| - 1], tag);
      AppendEffect(Group(visited[..|visited| - 1]), e.tag, e.text);
    }
  }

  /** The keys are exactly the visited tags. */
  lemma {:induction false} GroupTags(visited: seq<XmlElement>)
    ensures forall t :: t in Tags(Group(visited)) <==>
                        exists i :: 0 <= i < |visited| && visited[i].tag == t
  {
    if visited != [] {
      var n := |visited| - 1;
      var init := visited[..n];
      GroupTags(init);
      AppendEffect(Group(init), visited[n].tag, visited[n].text);
      forall t ensures t in Tags(Group(visited)) <==>
                       exists i :: 0 <= i < |visited| && visited[i].tag == t
      {
        if t in Tags(Group(init)) {
          var i :| 0 <= i < n && init[i].tag == t;
          assert visited[i] == init[i];
        }
        if exists i :: 0 <= i < |visited| && visited[i].tag == t {
          var i :| 0 <= i < |visited| && visited[i].tag == t;
          if i < n {
            assert init[i] == visited[i];
          }
        }
      }
    }
  }

  /** No key occurs twice. */
  lemma {:induction false} GroupTagsDistinct(visited: seq<XmlElement>)
    ensures forall i, j :: 0 <= i < j < |Tags(Group(visited))|
                           ==> Tags(Group(visited))[i] != Tags(Group(visited))[j]
  {
    if visited != [] {
      var n := |visited| - 1;
      var init := visited[..n];
      GroupTagsDistinct(init);
      AppendEffect(Group(init), visited[n].tag, visited[n].text);
    }
  }

  /** The list lengths add up to the number of elements visited. */
  lemma {:induction false} GroupTotal(visited: seq<XmlElement>)
    ensures TotalTexts(Group(visited)) == |visited|
  {
    if visited != [] {
      var n := |visited| - 1;
      GroupTotal(visited[..n]);
      AppendEffect(Group(visited[..n]), visited[n].tag, visited[n].text);
    }
  }

  /** Every field of the dictionary holds at least one text. */
  lemma {:induction false} GroupListsNonEmpty(visited: seq<XmlElement>, i: nat)
    requires i < |Group(visited)|
    ensures |Group(visited)[i].texts| > 0
  {
    var init := visited[..|visited| - 1];
    var e := visited[|visited| - 1];
    AppendNonEmpty(Group(init), e.tag, e.text, i);
    if i < |Group(init)| {
      GroupListsNonEmpty(init, i);
    }
  }

  /** Appending never leaves an empty list: the field at `i` is new or grew, or was already there. */
  lemma {:induction false} AppendNonEmpty(fields: seq<Field>, tag: string, text: Option<string>,
                                          i: nat)
    requires i < |Append(fields, tag, text)|
    ensures i < |fields| ==> |Append(fields, tag, text)[i].texts| >= |fields[i].texts|
    ensures i >= |fields| ==> |Append(fields, tag, text)[i].texts| > 0
  {
    if fields != [] && fields[0].tag != tag && i > 0 {
      AppendNonEmpty(fields[1..], tag, text, i - 1);
    }
  }

  /** Splitting off the last path. */
  lemma FlattenPrefix(found: seq<seq<XmlElement>>, p: nat)
    requires p < |found|
    ensures Flatten(found[..p + 1]) == Flatten(found[..p]) + found[p]
  {
    assert found[..p + 1][..p] == found[..p];
  }

  /** A prefix of the paths visits no more elements than all of them. */
  lemma {:induction false} FlattenGrows(found: seq<seq<XmlElement>>, p: nat)
    requires p <= |found|
    ensures |Flatten(found[..p])| <= |Flatten(found)|
    decreases |found| - p
  {
    if p < |found| {
      FlattenPrefix(found, p);
      FlattenGrows(found, p + 1);
    } else {
      assert found[..p] == found;
    }
  }

  /** `xml_to_dict` over the elements each path matched: `strip_ns=True` raises as soon as there
      is an element; otherwise the result groups the visited elements' texts by tag. */
  method XmlToDict(found: seq<seq<XmlElement>>, stripNs: bool)
    returns (r: Result<seq<Field>, XmlError>)
    ensures r.Err? <==> stripNs && |Flatten(found)| > 0
    ensures r.Ok? ==> r.value == Group(Flatten(found))
  {
    var fields: seq<Field> := [];
    for p := 0 to |found|
      invariant fields == Group(Flatten(found[..p]))
      invariant stripNs ==> Flatten(found[..p]) == []
    {
      FlattenPrefix(found, p);
      var elements := found[p];
      assert Flatten(found[..p]) + elements[..0] == Flatten(found[..p]);
      for q := 0 to |elements|
        invariant fields == Group(Flatten(found[..p]) + elements[..q])
        invariant stripNs ==> q == 0
      {
        if stripNs {
          FlattenGrows(found, p + 1);
          return Err(NameError);
        }
        var visited := Flatten(found[..p]) + elements[..q + 1];
        assert visited[..|visited| - 1] == Flatten(found[..p]) + elements[..q];
        fields := Append(fields, elements[q].tag, elements[q].text);
      }
      assert elements[..|elements|] == elements;
    }
    assert found[..|found|] == found;
    r := Ok(fields);
  }

  /** `re.sub(r'\{.*\}', '', tag)`: the greedy match runs from the first `{` to the last `}`
      after it, and once it is removed nothing else matches; without such a pair the tag is
      left as it is. */
  function StripNamespace(tag: string): (r: string)
    ensures |r| <= |tag|
    ensures '{' !in tag ==> r == tag
  {
    match IndexOf(tag, '{')
    case None => tag
    case Some(open) =>
      var close := RFind(tag, '}');
      if close > open then tag[..open] + tag[close + 1..] else tag
  }

  /** A tag in Clark notation, `{uri}local`, is stripped to its local name. */
  lemma ClarkLocalName(uri: string, local: string)
    requires '{' !in local && '}' !in local && '}' !in uri
    ensures StripNamespace("{" + uri + "}" + local) == local
  {
    var tag := "{" + uri + "}" + local;
    var close := |uri| + 1;
    assert IndexOf(tag, '{') == Some(0);
    assert tag[close] == '}' && forall j :: close < j < |tag| ==> tag[j] == local[j - close - 1];
    assert RFind(tag, '}') == close;
    assert tag[close + 1..] == local;
  }

  /** The key the intended loop files an element under: its tag, stripped of its namespace
      when asked. */
  function KeyOf(e: XmlElement, stripNs: bool): string
  {
    if stripNs then StripNamespace(e.tag) else e.tag
  }

  /** The elements with their tags replaced by their keys. */
  function Retag(visited: seq<XmlElement>, stripNs: bool): seq<XmlElement>
  {
    if visited == [] then []
    else
      var e := visited[|visited| - 1];
      Retag(visited[..|visited| - 1], stripNs) + [XmlElement(KeyOf(e, stripNs), e.text)]
  }

  /** Retagging keeps the elements and their texts, in order, and changes the tags only when
      namespaces are stripped. */
  lemma {:induction false} RetagKeeps(visited: seq<XmlElement>, stripNs: bool)
    ensures |Retag(visited, stripNs)| == |visited|
    ensures forall i :: 0 <= i < |visited| ==>
              Retag(visited, stripNs)[i] == XmlElement(KeyOf(visited[i], stripNs), visited[i].text)
    ensures !stripNs ==> Retag(visited, stripNs) == visited
  {
    if visited != [] {
      RetagKeeps(visited[..|visited| - 1], stripNs);
    }
  }

  /** Filing one more element of the current path appends its text under its key. */
  lemma RetagStep(before: seq<XmlElement>, elements: seq<XmlElement>, q: nat, stripNs: bool)
    requires q < |elements|
    ensures Group(Retag(before + elements[..q + 1], stripNs))
            == Append(Group(Retag(before + elements[..q], stripNs)),
                      KeyOf(elements[q], stripNs), elements[q].text)
  {
    var visited := before + elements[..q + 1];
    assert visited[..|visited| - 1] == before + elements[..q];
  }

  /** `xml_to_dict` as evidently intended, with `re` imported: it never raises, and it groups the
      texts under the tags, stripped of their namespace when `strip_ns` is set. */
  method XmlToDictIntended(found: seq<seq<XmlElement>>, stripNs: bool) returns (fields: seq<Field>)
    ensures fields == Group(Retag(Flatten(found), stripNs))
    ensures forall tag :: Lookup(fields, tag) == TextsWithTag(Retag(Flatten(found), stripNs), tag)
  {
    fields := [];
    for p := 0 to |found|
      invariant fields == Group(Retag(Flatten(found[..p]), stripNs))
    {
      FlattenPrefix(found, p);
      ghost var before := Flatten(found[..p]);
      var elements := found[p];
      assert before + elements[..0] == before;
      for q := 0 to |elements|
        invariant fields == Group(Retag(before + elements[..q], stripNs))
      {
        var tag := KeyOf(elements[q], stripNs);
        RetagStep(before, elements, q, stripNs);
        fields := Append(fields, tag, elements[q].text);
      }
      assert before + elements[..|elements|] == Flatten(found[..p + 1]);
    }
    assert found[..|found|] == found;
    forall tag ensures Lookup(fields, tag) == TextsWithTag(Retag(Flatten(found), stripNs), tag) {
      GroupLookup(Retag(Flatten(found), stripNs), tag);
    }
  }

  /** A Python value inside the dictionaries `remove_none_from_dict` walks: `None`, another
      scalar, a dictionary (its entries in order) or a list. */
  datatype Value = Null | Scalar(repr: string) | Dict(entries: seq<Pair>) | List(items: seq<Value>)

  /** One key of a dictionary with its value. */
  datatype Pair = Pair(key: string, value: Value)

  /** The dictionary after `remove_none_from_dict`: the keys holding `None` are gone, and nested
      dictionaries, whether values or items of a list value, are pruned in turn. */
  function PruneEntries(entries: seq<Pair>): seq<Pair>
    decreases entries
  {
    if entries == [] then []
    else
      var last := entries[|entries| - 1];
      PruneEntries(entries[..|entries| - 1])
      + (if last.value.Null? then [] else [Pair(last.key, PruneValue(last.value))])
  }

  /** A value after the recursion: dictionaries are pruned, the items of lists are visited, and
      anything else stays as it is. */
  function PruneValue(v: Value): Value
    decreases v
  {
    match v
    case Dict(entries) => Dict(PruneEntries(entries))
    case List(items) => List(PruneItems(items))
    case _ => v
  }

  /** The items of a list: dictionaries among them are pruned; `None` items and nested lists
      are left as they are. */
  function PruneItems(items: seq<Value>): seq<Value>
    decreases items
  {
    if items == [] then []
    else
      var last := items[|items| - 1];
      PruneItems(items[..|items| - 1])
      + [if last.Dict? then Dict(PruneEntries(last.entries)) else last]
  }

  /** No key of the dictionary holds `None`, nor does any key of a dictionary reached through
      dictionary values or directly through list items. */
  ghost predicate NoNone(entries: seq<Pair>)
    decreases entries
  {
    forall i :: 0 <= i < |entries| ==> !entries[i].value.Null? && ValueNoNone(entries[i].value)
  }

  /** The part of `NoNone` about one value. */
  ghost predicate ValueNoNone(v: Value)
    decreases v
  {
    match v
    case Dict(entries) => NoNone(entries)
    case List(items) => forall j :: 0 <= j < |items| ==> items[j].Dict? ==> NoNone(items[j].entries)
    case _ => true
  }

  /** After pruning no reachable key holds `None`. */
  lemma {:induction false} PrunedHasNoNone(entries: seq<Pair>)
    ensures NoNone(PruneEntries(entries))
    decreases entries
  {
    if entries != [] {
      var last := entries[|entries| - 1];
      PrunedHasNoNone(entries[..|entries| - 1]);
      if !last.value.Null? {
        PrunedValueHasNoNone(last.value);
      }
    }
  }

  /** The part of `PrunedHasNoNone` about one value. */
  lemma {:induction false} PrunedValueHasNoNone(v: Value)
    ensures ValueNoNone(PruneValue(v))
    decreases v
  {
    match v
    case Dict(entries) => PrunedHasNoNone(entries);
    case List(items) => PrunedItemsHaveNoNone(items);
    case _ =>
  }

  /** The part of `PrunedHasNoNone` about the items of a list. */
  lemma {:induction false} PrunedItemsHaveNoNone(items: seq<Value>)
    ensures forall j :: 0 <= j < |PruneItems(items)| ==>
              PruneItems(items)[j].Dict? ==> NoNone(PruneItems(items)[j].entries)
    ensures |PruneItems(items)| == |items|
    decreases items
  {
    if items != [] {
      var last := items[|items| - 1];
      PrunedItemsHaveNoNone(items[..|items| - 1]);
      if last.Dict? {
        PrunedHasNoNone(last.entries);
      }
    }
  }

  /** A dictionary with nothing to prune is left unchanged. */
  lemma {:induction false} PruneFixesClean(entries: seq<Pair>)
    requires NoNone(entries)
    ensures PruneEntries(entries) == entries
    decreases entries
  {
    if entries != [] {
      var init := entries[..|entries| - 1];
      var last := entries[|entries| - 1];
      assert NoNone(init) by {
        forall i | 0 <= i < |init| ensures !init[i].value.Null? && ValueNoNone(init[i].value) {
          assert init[i] == entries[i];
        }
      }
      PruneFixesClean(init);
      PruneValueFixesClean(last.value);
      assert entries == init + [last];
    }
  }

  /** The part of `PruneFixesClean` about one value. */
  lemma {:induction false} PruneValueFixesClean(v: Value)
    requires ValueNoNone(v)
    ensures PruneValue(v) == v
    decreases v
  {
    match v
    case Dict(entries) => PruneFixesClean(entries);
    case List(items) => PruneItemsFixClean(items);
    case _ =>
  }

  /** The part of `PruneFixesClean` about the items of a list. */
  lemma {:induction false} PruneItemsFixClean(items: seq<Value>)
    requires forall j :: 0 <= j < |items| ==> items[j].Dict? ==> NoNone(items[j].entries)
    ensures PruneItems(items) == items
    decreases items
  {
    if items != [] {
      var init := items[..|items| - 1];
      var last := items[|items| - 1];
      assert forall j :: 0 <= j < |init| ==> init[j] == items[j];
      PruneItemsFixClean(init);
      if last.Dict? {
        PruneFixesClean(last.entries);
      }
      assert items == init + [last];
    }
  }

  /** A second call changes nothing. */
  lemma PruneIdempotent(entries: seq<Pair>)
    ensures PruneEntries(PruneEntries(entries)) == PruneEntries(entries)
  {
    PrunedHasNoNone(entries);
    PruneFixesClean(PruneEntries(entries));
  }

  /** `src` gives, for each entry of the pruned dictionary, the entry it came from: the entries
      kept are the ones not holding `None`, in their order, each with its key and its value
      pruned in turn. */
  ghost predicate PruneTraced(entries: seq<Pair>, pruned: seq<Pair>, src: seq<nat>)
  {
    && |src| == |pruned| <= |entries|
    && (forall k, l :: 0 <= k < l < |src| ==> src[k] < src[l])
    && (forall k :: 0 <= k < |src| ==>
          src[k] < |entries| && !entries[src[k]].value.Null?
          && pruned[k] == Pair(entries[src[k]].key, PruneValue(entries[src[k]].value)))
    && (forall i :: 0 <= i < |entries| && !entries[i].value.Null? ==> i in src)
  }

  /** Only the keys holding `None` go: every other key stays, in its order, with its value
      pruned. */
  lemma {:induction false} PruneKeepsKeys(entries: seq<Pair>) returns (src: seq<nat>)
    ensures PruneTraced(entries, PruneEntries(entries), src)
  {
    if entries == [] {
      src := [];
    } else {
      var n := |entries| - 1;
      var init := entries[..n];
      var srcInit := PruneKeepsKeys(init);
      assert forall i :: 0 <= i < n ==> init[i] == entries[i];
      if entries[n].value.Null? {
        src := srcInit;
      } else {
        src := srcInit + [n];
      }
    }
  }

  /** A list value keeps its length, its `None` items, its scalars and its nested lists. */
  lemma {:induction false} PruneItemsKeepsOthers(items: seq<Value>)
    ensures |PruneItems(items)| == |items|
    ensures forall j :: 0 <= j < |items| && !items[j].Dict? ==> PruneItems(items)[j] == items[j]
  {
    if items != [] {
      PruneItemsKeepsOthers(items[..|items| - 1]);
    }
  }

  /** A Python `dict` object: its entries in insertion order. The values it holds are plain
      values; a nested dictionary is turned into an object of its own while it is pruned. */
  class PyDict {
    var entries: seq<Pair>

    constructor(entries: seq<Pair>)
      ensures this.entries == entries
    {
      this.entries := entries;
    }
  }

  /** One more entry of the snapshot: dropped when it holds `None`, otherwise kept with its
      value pruned. */
  lemma PruneEntriesStep(items: seq<Pair>, i: nat)
    requires i < |items|
    ensures PruneEntries(items[..i + 1])
            == PruneEntries(items[..i])
               + (if items[i].value.Null? then [] else [Pair(items[i].key, PruneValue(items[i].value))])
  {
    assert items[..i + 1][..i] == items[..i];
  }

  /** Replacing the current item, at position `kept` of the half-pruned entries, by its pruned
      form (nothing for a `None` value) extends the pruned prefix by one item. */
  lemma SpliceStep(items: seq<Pair>, i: nat, entries: seq<Pair>, kept: nat, pruned: seq<Pair>)
    requires i < |items|
    requires entries == PruneEntries(items[..i]) + items[i..]
    requires kept == |PruneEntries(items[..i])|
    requires pruned == if items[i].value.Null? then [] else [Pair(items[i].key, PruneValue(items[i].value))]
    ensures kept < |entries| && entries == entries[..kept] + [items[i]] + entries[kept + 1..]
    ensures entries[..kept] + pruned + entries[kept + 1..] == PruneEntries(items[..i + 1]) + items[i + 1..]
    ensures kept + |pruned| == |PruneEntries(items[..i + 1])|
  {
    PruneEntriesStep(items, i);
    assert entries[..kept] == PruneEntries(items[..i]);
    assert entries[kept + 1..] == items[i + 1..];
  }

  /** `remove_none_from_dict`: prunes the dictionary in place and returns the same object. The
      loop walks a snapshot of the items, as `list(dictionary.items())` does, while the entries
      before the current one are already pruned. */
  method RemoveNoneFromDict(dictionary: PyDict) returns (r: PyDict)
    modifies dictionary
    ensures r == dictionary
    ensures dictionary.entries == PruneEntries(old(dictionary.entries))
    decreases dictionary.entries
  {
    var items := dictionary.entries;
    // The current item sits at position `kept`: the items before it that remain.
    var kept := 0;
    for i := 0 to |items|
      invariant dictionary.entries == PruneEntries(items[..i]) + items[i..]
      invariant kept == |PruneEntries(items[..i])|
    {
      var key, value := items[i].key, items[i].value;
      var pruned: seq<Pair>;
      match value {
        case Null =>
          // `del dictionary[key]`
          pruned := [];
        case Dict(nested) =>
          var inner := new PyDict(nested);
          var _ := RemoveNoneFromDict(inner);
          pruned := [Pair(key, Dict(inner.entries))];
        case List(list) =>
          var visited := PruneItemsInList(list);
          pruned := [Pair(key, List(visited))];
        case Scalar(_) =>
          pruned := [items[i]];
      }
      SpliceStep(items, i, dictionary.entries, kept, pruned);
      if !value.Scalar? {
        dictionary.entries := dictionary.entries[..kept] + pruned + dictionary.entries[kept + 1..];
      }
      kept := kept + |pruned|;
    }
    assert items[..|items|] == items;
    return dictionary;
  }

  /** The inner loop over the items of a list value: each dictionary item is pruned in turn;
      the list keeps its other items. */
  method PruneItemsInList(items: seq<Value>) returns (visited: seq<Value>)
    ensures visited == PruneItems(items)
    decreases items
  {
    visited := [];
    for j := 0 to |items|
      invariant visited == PruneItems(items[..j])
    {
      assert items[..j + 1][..j] == items[..j];
      var item := items[j];
      if item.Dict? {
        var inner := new PyDict(item.entries);
        var _ := RemoveNoneFromDict(inner);
        visited := visited + [Dict(inner.entries)];
      } else {
        visited := visited + [item];
      }
    }
    assert items[..|items|] == items;
  }
}
