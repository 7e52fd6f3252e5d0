/** What `json_callback` writes to its file (initial.py:41-94), for output
    that has already been turned into a string.

    The output is searched for the pattern `\{[\s\S]*\}`: from the first `{`
    to the last `}` after it. Without such a span the whole output is saved as
    it is. The span is handed to the JSON parser, which is a parameter here; if
    it rejects the span, the span itself is saved. Otherwise the parsed object
    is saved, with its keys normalised when the callback is the one for agents
    or for tasks. */
module Callback {
  import opened Wrappers
  import opened Strings
  import opened Normalise

  /** `s[i..j]` is a match of the pattern: it opens with `{` and closes with `}`. */
  predicate BraceSpan(s: string, i: int, j: int) {
    0 <= i && i + 2 <= j <= |s| && s[i] == '{' && s[j - 1] == '}'
  }

  /** `re.search` with the pattern: the leftmost match, taken as long as it can
      be since `[\s\S]*` is greedy. */
  function SearchBraces(s: string): (r: Option<(nat, nat)>)
    ensures r.None? <==> forall i, j :: !BraceSpan(s, i, j)
    ensures r.Some? ==> BraceSpan(s, r.value.0, r.value.1)
    ensures r.Some? ==> forall i, j :: i < r.value.0 ==> !BraceSpan(s, i, j)
    ensures r.Some? ==> forall j :: r.value.1 < j ==> !BraceSpan(s, r.value.0, j)
  {
    var first := Find(s, '{');
    var last := RFind(s, '}');
    SpanBetween(s, first, last);
    if 0 <= first < last then
      assert BraceSpan(s, first, last + 1);
      Some((first, last + 1))
    else None
  }

  /** Every match starts at or after the first `{` and ends at or before the
      last `}`. */
  lemma SpanBetween(s: string, first: int, last: int)
    requires first == Find(s, '{') && last == RFind(s, '}')
    ensures forall i, j :: BraceSpan(s, i, j) ==> 0 <= first <= i && j <= last + 1
  {
    forall i, j | BraceSpan(s, i, j)
      ensures 0 <= first <= i && j <= last + 1
    {
      assert s[i] == '{' && s[j - 1] == '}';
    }
  }

  /** `matches.group(1)`, when there is a match. */
  function ExtractJson(s: string): (r: Option<string>)
    ensures r.Some? <==> exists i, j :: BraceSpan(s, i, j)
    ensures r.Some? ==> exists i: nat, j: nat :: BraceSpan(s, i, j) && r.value == s[i..j]
    ensures r.Some? ==> 2 <= |r.value| && r.value[0] == '{' && r.value[|r.value| - 1] == '}'
  {
    match SearchBraces(s)
    case None => None
    case Some((i, j)) => Some(s[i..j])
  }

  /** The extracted span runs from the first `{` of the string to its last `}`. */
  lemma SpanFirstToLast(s: string)
    requires ExtractJson(s).Some?
    ensures exists i: nat, j: nat ::
              && i < j <= |s|
              && ExtractJson(s).value == s[i..j]
              && s[i] == '{' && (forall k :: 0 <= k < i ==> s[k] != '{')
              && s[j - 1] == '}' && (forall k :: j <= k < |s| ==> s[k] != '}')
  {
    var r := SearchBraces(s);
    var i, j := r.value.0, r.value.1;
    forall k | 0 <= k < i
      ensures s[k] != '{'
    {
      assert !BraceSpan(s, k, j);
    }
    forall k | j <= k < |s|
      ensures s[k] != '}'
    {
      assert !BraceSpan(s, i, k + 1);
    }
  }

  /** When no `}` follows any `{`, nothing is matched. */
  lemma NoClosingBrace(s: string)
    requires forall a, b :: 0 <= a < b < |s| && s[a] == '{' ==> s[b] != '}'
    ensures ExtractJson(s) == None
  {
  }

  /** A string that is one brace-delimited span is extracted whole, whatever it holds. */
  lemma WholeSpan(s: string)
    requires 2 <= |s| && s[0] == '{' && s[|s| - 1] == '}'
    ensures ExtractJson(s) == Some(s)
  {
    var r := SearchBraces(s);
    assert BraceSpan(s, 0, |s|);
    assert r.value.0 == 0;
    assert r.value.1 == |s|;
    assert s[0..|s|] == s;
  }

  /** The content of the file the callback writes. */
  datatype Saved<V> = Raw(text: string) | Json(entries: Entries<V>)

  /** `json_callback` with the output as a string, `kind` as its `type` argument
      and `parse` standing for `json.loads` on an object (`None` when it raises
      `JSONDecodeError`). */
  function JsonCallback<V>(output: string, kind: string, parse: string -> Option<Entries<V>>): (r: Saved<V>)
    ensures ExtractJson(output).None? ==> r == Raw(output)
    ensures ExtractJson(output).Some? && parse(ExtractJson(output).value).None? ==>
              r == Raw(ExtractJson(output).value)
    ensures r.Json? <==> ExtractJson(output).Some? && parse(ExtractJson(output).value).Some?
    ensures r.Json? ==> r.entries == NormalizeFor(kind, parse(ExtractJson(output).value).value)
    ensures r.Json? && kind != "agents" && kind != "tasks" ==>
              r.entries == parse(ExtractJson(output).value).value
    ensures r.Json? && kind == "agents" ==>
              DistinctKeys(r.entries) && forall i :: 0 <= i < |r.entries| ==> StartsWith(r.entries[i].0, "agent_")
    ensures r.Json? && kind == "tasks" ==>
              DistinctKeys(r.entries) && forall i :: 0 <= i < |r.entries| ==> StartsWith(r.entries[i].0, "task_")
  {
    match ExtractJson(output)
    case None => Raw(output)
    case Some(span) =>
      match parse(span)
      case None => Raw(span)
      case Some(obj) => Json(NormalizeFor(kind, obj))
  }

  /** The prefix the agents and tasks callbacks give their keys. */
  function KindPrefix(kind: string): string {
    if kind == "agents" then "agent_" else "task_"
  }

  /** For agents and for tasks, the saved object has the renamed keys in order
      of first insertion; each key holds the value of the last entry renamed to
      it, and no other key is saved. */
  lemma SavedNormalized<V>(output: string, kind: string, parse: string -> Option<Entries<V>>)
    requires kind == "agents" || kind == "tasks"
    requires ExtractJson(output).Some?
    requires parse(ExtractJson(output).value).Some?
    ensures var obj := parse(ExtractJson(output).value).value;
            var ms := MappedKeys(obj, KindPrefix(kind));
            var saved := JsonCallback(output, kind, parse).entries;
            && Keys(saved) == Dedup(ms)
            && (forall i :: 0 <= i < |obj| && (forall j :: i < j < |obj| ==> ms[j] != ms[i]) ==>
                  Lookup(saved, ms[i]) == Some(obj[i].1))
            && (forall k :: k !in ms ==> Lookup(saved, k) == None)
  {
    var obj := parse(ExtractJson(output).value).value;
    assert JsonCallback(output, kind, parse).entries == Normalize(obj, KindPrefix(kind));
    NormalizeKeyOrder(obj, KindPrefix(kind));
    NormalizeLookup(obj, KindPrefix(kind));
  }

  /** The agents callback saves every parsed entry whose key already has the
      prefix, under that key, unless a later entry is renamed onto it. */
  lemma AgentsKeepPrefixedKeys<V>(output: string, parse: string -> Option<Entries<V>>, i: nat)
    requires ExtractJson(output).Some?
    requires parse(ExtractJson(output).value).Some?
    requires var obj := parse(ExtractJson(output).value).value;
             && i < |obj|
             && StartsWith(obj[i].0, "agent_")
             && (forall j :: i < j < |obj| ==> MappedKeys(obj, "agent_")[j] != obj[i].0)
    ensures var obj := parse(ExtractJson(output).value).value;
            Lookup(JsonCallback(output, "agents", parse).entries, obj[i].0) == Some(obj[i].1)
  {
    var span := ExtractJson(output).value;
    var obj := parse(span).value;
    assert JsonCallback(output, "agents", parse) == Json(Normalize(obj, "agent_"));
    PrefixedKeyKept(obj, "agent_", i);
  }
}
