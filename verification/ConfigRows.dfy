/** The dotted row keys of flattened configuration values, and the repair that assembles the rows
    into one value (backend/open_webui/models/config.py, _split_api_config_fragment and the
    assembly loop of repair_config_rows). */
module ConfigRows {
  import opened Collections
  import opened ConfigTree

  const API_CONFIG_FIELDS: seq<string> := [
    "enable", "key", "prefix_id", "tags", "model_ids", "connection_type", "provider", "auth_type", "headers",
    "azure", "api_type", "api_version", "extra_params", "passthrough_params"]

  // ------------------------------------------------------------------ dotted keys

  predicate DotFree(s: string) {
    '.' !in s
  }

  /** The components joined with dots. */
  function Join(path: seq<string>): string {
    if path == [] then ""
    else if |path| == 1 then path[0]
    else path[0] + "." + Join(path[1..])
  }

  /** The text before the first dot. */
  function FirstOf(s: string): (first: string)
    ensures DotFree(first) && first <= s
    ensures |first| < |s| ==> s[|first|] == '.'
  {
    if s == "" || s[0] == '.' then "" else [s[0]] + FirstOf(s[1..])
  }

  /** `partition('.')[2]`: the text after the first dot, empty when there is none. */
  function RestOf(s: string): string {
    if |FirstOf(s)| < |s| then s[|FirstOf(s)| + 1..] else ""
  }

  /** `split('.')`. */
  function Split(s: string): (parts: seq<string>)
    ensures parts != []
    decreases |s|
  {
    if |FirstOf(s)| < |s| then [FirstOf(s)] + Split(s[|FirstOf(s)| + 1..]) else [s]
  }

  lemma {:induction false} FirstOfAppend(first: string, rest: string)
    requires DotFree(first) && (rest == "" || rest[0] == '.')
    ensures FirstOf(first + rest) == first
  {
    if first == "" {
      assert first + rest == rest;
    } else {
      assert first[0] in first;
      assert (first + rest)[1..] == first[1..] + rest;
      FirstOfAppend(first[1..], rest);
    }
  }

  lemma SplitUnfolds(s: string, first: string, rest: string)
    requires FirstOf(s) == first && |first| < |s| && s[|first| + 1..] == rest
    ensures Split(s) == [first] + Split(rest)
  {
  }

  lemma SuffixAfter(first: string, c: char, rest: string)
    ensures |first + ([c] + rest)| == |first| + 1 + |rest|
    ensures (first + ([c] + rest))[|first| + 1..] == rest
  {
  }

  lemma SplitCons(first: string, rest: string)
    requires DotFree(first)
    ensures Split(first + ("." + rest)) == [first] + Split(rest)
  {
    FirstOfAppend(first, "." + rest);
    SuffixAfter(first, '.', rest);
    SplitUnfolds(first + ("." + rest), first, rest);
  }

  lemma SplitOne(s: string)
    requires DotFree(s)
    ensures Split(s) == [s]
  {
    FirstOfAppend(s, "");
    assert s + "" == s;
  }

  lemma JoinCons(path: seq<string>)
    requires |path| > 1
    ensures Join(path) == path[0] + ("." + Join(path[1..]))
  {
  }

  /** Splitting undoes joining for components without dots; a component may be empty. */
  lemma {:induction false} SplitJoin(path: seq<string>)
    requires path != [] && forall c :: c in path ==> DotFree(c)
    ensures Split(Join(path)) == path
  {
    assert path[0] in path;
    if |path| == 1 {
      SplitOne(path[0]);
    } else {
      assert forall c :: c in path[1..] ==> c in path;
      SplitJoin(path[1..]);
      JoinCons(path);
      SplitCons(path[0], Join(path[1..]));
      assert path == [path[0]] + path[1..];
    }
  }

  // ------------------------------------------------------------------ API fragments

  /** Joining undoes splitting, and no component holds a dot. */
  lemma {:induction false} JoinSplit(s: string)
    ensures Join(Split(s)) == s
    ensures forall c :: c in Split(s) ==> DotFree(c)
    decreases |s|
  {
    var first := FirstOf(s);
    if |first| < |s| {
      var rest := s[|first| + 1..];
      JoinSplit(rest);
      JoinCons([first] + Split(rest));
      assert ([first] + Split(rest))[1..] == Split(rest);
      assert s == first + ("." + rest);
    } else {
      assert first == s;
    }
  }

  predicate IsDigits(s: string) {
    s != "" && forall i :: 0 <= i < |s| ==> '0' <= s[i] <= '9'
  }

  /** `rfind`: the last occurrence, or -1. */
  function RFind(s: string, t: string): (i: int)
    ensures i == -1 || OccursAt(s, t, i)
    ensures forall j :: OccursAt(s, t, j) ==> j <= i
  {
    RFindUpTo(s, t, |s|)
  }

  function RFindUpTo(s: string, t: string, n: nat): (i: int)
    ensures i == -1 || OccursAt(s, t, i)
    ensures forall j :: j <= n && OccursAt(s, t, j) ==> j <= i
  {
    if OccursAt(s, t, n) then n else if n == 0 then -1 else RFindUpTo(s, t, n - 1)
  }

  /** A dot followed by the name of an API field. */
  ghost predicate MarkerAt(s: string, i: int) {
    exists f :: f in API_CONFIG_FIELDS && OccursAt(s, "." + f, i)
  }

  /** The greatest position of a marker of the first `n` fields, or -1. */
  function LastMarkerOf(s: string, fields: seq<string>): (i: int)
    ensures -1 <= i < |s|
  {
    if fields == [] then -1
    else
      var before, index := LastMarkerOf(s, fields[..|fields| - 1]), RFind(s, "." + fields[|fields| - 1]);
      if index > before then index else before
  }

  lemma {:induction false} LastMarkerOfFields(s: string, fields: seq<string>)
    ensures LastMarkerOf(s, fields) == -1 || exists f :: f in fields && OccursAt(s, "." + f, LastMarkerOf(s, fields))
    ensures forall f, j :: f in fields && OccursAt(s, "." + f, j) ==> j <= LastMarkerOf(s, fields)
  {
    if fields != [] {
      var front, last := fields[..|fields| - 1], fields[|fields| - 1];
      assert fields == front + [last];
      LastMarkerOfFields(s, front);
    }
  }

  function LastMarker(s: string): int {
    LastMarkerOf(s, API_CONFIG_FIELDS)
  }

  lemma LastMarkerIsLast(s: string)
    ensures LastMarker(s) == -1 || MarkerAt(s, LastMarker(s))
    ensures forall j :: MarkerAt(s, j) ==> j <= LastMarker(s)
  {
    LastMarkerOfFields(s, API_CONFIG_FIELDS);
  }

  datatype Fragment = Fragment(key: string, path: seq<string>)

  /** A leading index and the rest; else the text before and after the last field marker; else
      nothing. */
  function SplitFragment(fragment: string): Option<Fragment> {
    if fragment == "" then None
    else if IsDigits(FirstOf(fragment)) && RestOf(fragment) != "" then
      Some(Fragment(FirstOf(fragment), Split(RestOf(fragment))))
    else if LastMarker(fragment) > 0 then
      Some(Fragment(fragment[..LastMarker(fragment)], Split(fragment[LastMarker(fragment) + 1..])))
    else None
  }

  /** Whether the fragment starts with an index, a dot and something more. */
  predicate Indexed(fragment: string) {
    IsDigits(FirstOf(fragment)) && |FirstOf(fragment)| + 1 < |fragment|
  }

  /** The last marker of the fragment is at `last`. */
  ghost predicate LastMarked(fragment: string, last: int) {
    MarkerAt(fragment, last) && forall j :: MarkerAt(fragment, j) ==> j <= last
  }

  ghost predicate Unmarked(fragment: string) {
    forall j :: MarkerAt(fragment, j) ==> j == 0
  }

  /** What a split stands for: key and path put together again are the fragment. */
  ghost predicate SplitMeans(fragment: string, split: Option<Fragment>) {
    match split
    case None => !Indexed(fragment) && Unmarked(fragment)
    case Some(f) =>
      && f.key != "" && Reassembles(fragment, f)
      && if Indexed(fragment) then f.key == FirstOf(fragment) else LastMarked(fragment, |f.key|)
  }

  /** A fragment splits without loss: at its first dot when an index comes before it and something
      after, else at the last marker; not at all when there is neither, or the only marker is at its
      start. */
  lemma SplitFragmentMeans(fragment: string)
    ensures SplitMeans(fragment, SplitFragment(fragment))
  {
    var last := LastMarkerPosition(fragment);
    CutMeans(fragment, last, SplitFragment(fragment));
  }

  lemma CutMeans(fragment: string, last: int, split: Option<Fragment>)
    requires last == -1 || (0 <= last < |fragment| && fragment[last] == '.' && LastMarked(fragment, last))
    requires last <= 0 ==> Unmarked(fragment)
    requires split ==
      if Indexed(fragment) then Some(CutAt(fragment, |FirstOf(fragment)|))
      else if last > 0 then Some(CutAt(fragment, last))
      else None
    ensures SplitMeans(fragment, split)
  {
    if Indexed(fragment) {
      IndexNotEmpty(fragment);
      CutReassembles(fragment, |FirstOf(fragment)|);
    } else if last > 0 {
      CutReassembles(fragment, last);
    }
  }

  lemma IndexNotEmpty(fragment: string)
    requires Indexed(fragment)
    ensures FirstOf(fragment) != "" && fragment[..|FirstOf(fragment)|] == FirstOf(fragment)
    ensures fragment[|FirstOf(fragment)|] == '.'
  {
  }

  function CutAt(fragment: string, n: nat): Fragment
    requires n < |fragment|
  {
    Fragment(fragment[..n], Split(fragment[n + 1..]))
  }

  ghost predicate Reassembles(fragment: string, f: Fragment) {
    fragment == f.key + "." + Join(f.path) && forall c :: c in f.path ==> DotFree(c)
  }

  lemma CutReassembles(fragment: string, n: nat)
    requires n < |fragment| && fragment[n] == '.'
    ensures Reassembles(fragment, CutAt(fragment, n))
  {
    JoinSplit(fragment[n + 1..]);
    assert fragment == fragment[..n] + "." + fragment[n + 1..];
  }

  lemma LastMarkerPosition(fragment: string) returns (last: int)
    ensures last == -1 || (0 <= last < |fragment| && fragment[last] == '.' && LastMarked(fragment, last))
    ensures last <= 0 ==> Unmarked(fragment)
    ensures SplitFragment(fragment) ==
      if Indexed(fragment) then Some(CutAt(fragment, |FirstOf(fragment)|))
      else if last > 0 then Some(CutAt(fragment, last))
      else None
  {
    last := LastMarker(fragment);
    MarkersUpTo(fragment, last);
    assert Indexed(fragment) ==> fragment[..|FirstOf(fragment)|] == FirstOf(fragment);
  }

  lemma MarkersUpTo(fragment: string, last: int)
    requires last == LastMarker(fragment)
    ensures last == -1 || (0 <= last < |fragment| && fragment[last] == '.' && LastMarked(fragment, last))
    ensures last <= 0 ==> Unmarked(fragment)
  {
    LastMarkerIsLast(fragment);
    forall j | MarkerAt(fragment, j)
      ensures 0 <= j < |fragment| && fragment[j] == '.'
    {
      MarkerIsDot(fragment, j);
    }
  }

  method FindLastMarker(fragment: string, fields: seq<string>) returns (last: int)
    ensures last == LastMarkerOf(fragment, fields)
  {
    last := -1;
    for n := 0 to |fields|
      invariant last == LastMarkerOf(fragment, fields[..n])
    {
      assert fields[..n + 1][..n] == fields[..n];
      var index := RFind(fragment, "." + fields[n]);
      if index != -1 && (last == -1 || index > last) {
        last := index;
      }
    }
    assert fields[..|fields|] == fields;
  }

  method SplitApiConfigFragment(fragment: string) returns (result: Option<Fragment>)
    ensures result == SplitFragment(fragment)
  {
    if fragment == "" {
      return None;
    }
    if IsDigits(FirstOf(fragment)) && RestOf(fragment) != "" {
      return Some(Fragment(FirstOf(fragment), Split(RestOf(fragment))));
    }
    var last := FindLastMarker(fragment, API_CONFIG_FIELDS);
    if last > 0 {
      return Some(Fragment(fragment[..last], Split(fragment[last + 1..])));
    }
    return None;
  }

  // ------------------------------------------------------------------ when a fragment splits back

  predicate StartsWithField(c: string) {
    exists n :: 0 <= n < |API_CONFIG_FIELDS| && API_CONFIG_FIELDS[n] <= c
  }

  lemma FieldsAreDotFree(f: string)
    requires f in API_CONFIG_FIELDS
    ensures DotFree(f) && f != "" && StartsWithField(f)
  {
    var n :| 0 <= n < |API_CONFIG_FIELDS| && API_CONFIG_FIELDS[n] == f;
  }

  /** A marker just after `prefix` is a component starting with a field. */
  lemma MarkerAtComponent(prefix: string, c: string, rest: string)
    requires DotFree(c) && (rest == "" || rest[0] == '.')
    ensures MarkerAt(prefix + "." + c + rest, |prefix|) <==> StartsWithField(c)
  {
    var s := prefix + "." + c + rest;
    forall f | f in API_CONFIG_FIELDS
      ensures OccursAt(s, "." + f, |prefix|) <==> f <= c
    {
      FieldsAreDotFree(f);
      DotFreeOccurrence(prefix, c, rest, f);
    }
    if MarkerAt(s, |prefix|) {
      var f :| f in API_CONFIG_FIELDS && OccursAt(s, "." + f, |prefix|);
      var n :| 0 <= n < |API_CONFIG_FIELDS| && API_CONFIG_FIELDS[n] == f;
    }
    if StartsWithField(c) {
      var n :| 0 <= n < |API_CONFIG_FIELDS| && API_CONFIG_FIELDS[n] <= c;
      assert API_CONFIG_FIELDS[n] in API_CONFIG_FIELDS;
    }
  }

  lemma DotFreeOccurrence(prefix: string, c: string, rest: string, f: string)
    requires DotFree(f) && DotFree(c) && (rest == "" || rest[0] == '.')
    ensures OccursAt(prefix + "." + c + rest, "." + f, |prefix|) <==> f <= c
  {
    var s, p := prefix + "." + c + rest, |prefix|;
    assert forall i :: 0 <= i < |f| ==> f[i] in f;
    if |f| <= |c| {
      assert s[p..p + |"." + f|] == "." + c[..|f|];
      assert f == ("." + f)[1..] && c[..|f|] == ("." + c[..|f|])[1..];
    } else if rest != "" {
      DotAfterComponent(prefix, c, rest);
      assert ("." + f)[1 + |c|] == f[|c|];
      assert p + |"." + f| <= |s| ==> s[p..p + |"." + f|][1 + |c|] == s[p + 1 + |c|];
    }
  }

  lemma DotAfterComponent(prefix: string, c: string, rest: string)
    requires rest != "" && rest[0] == '.'
    ensures (prefix + "." + c + rest)[|prefix| + 1 + |c|] == '.'
  {
    assert |prefix + "." + c| == |prefix| + 1 + |c|;
    assert ((prefix + "." + c) + rest)[|prefix + "." + c|] == rest[0];
  }

  /** Markers sit on dots. */
  lemma MarkerIsDot(s: string, j: int)
    requires MarkerAt(s, j)
    ensures 0 <= j < |s| && s[j] == '.'
  {
    var f :| f in API_CONFIG_FIELDS && OccursAt(s, "." + f, j);
    assert s[j..j + |"." + f|][0] == '.';
  }

  ghost predicate MarkerFrom(s: string, from: int) {
    exists j :: j >= from && MarkerAt(s, j)
  }

  predicate AnyStartsWithField(comps: seq<string>) {
    exists n :: 0 <= n < |comps| && StartsWithField(comps[n])
  }

  lemma AnyOfCons(comps: seq<string>)
    requires comps != []
    ensures AnyStartsWithField(comps) <==> StartsWithField(comps[0]) || AnyStartsWithField(comps[1..])
  {
    if AnyStartsWithField(comps[1..]) {
      var n :| 0 <= n < |comps[1..]| && StartsWithField(comps[1..][n]);
      assert StartsWithField(comps[n + 1]);
    }
    if AnyStartsWithField(comps) && !StartsWithField(comps[0]) {
      var n :| 0 <= n < |comps| && StartsWithField(comps[n]);
      assert StartsWithField(comps[1..][n - 1]);
    }
  }

  /** From the dot before a component, the next markers are that dot or come after the
      component. */
  lemma MarkersSkipComponent(s: string, prefix: string, c: string, rest: string, next: int)
    requires s == prefix + "." + c + rest && next == |prefix| + 1 + |c|
    requires DotFree(c) && (rest == "" || rest[0] == '.')
    ensures MarkerFrom(s, |prefix|) <==> StartsWithField(c) || MarkerFrom(s, next)
  {
    MarkerAtComponent(prefix, c, rest);
    NoMarkerInside(prefix, c, rest);
  }

  lemma PrefixGrows(prefix: string, c: string, more: string)
    ensures prefix + "." + (c + ("." + more)) == (prefix + "." + c) + "." + more
    ensures prefix + "." + (c + ("." + more)) == prefix + "." + c + ("." + more)
    ensures |prefix + "." + c| == |prefix| + 1 + |c|
  {
  }

  /** The markers from `prefix` on are the components that start with a field. */
  lemma {:induction false} MarkersAfter(s: string, prefix: string, comps: seq<string>)
    requires s == prefix + "." + Join(comps)
    requires comps != [] && forall c :: c in comps ==> DotFree(c)
    ensures MarkerFrom(s, |prefix|) <==> AnyStartsWithField(comps)
    decreases |comps|
  {
    var c, tail := comps[0], comps[1..];
    assert c in comps;
    AnyOfCons(comps);
    if |comps| == 1 {
      MarkersSkipComponent(s, prefix, c, "", |prefix| + 1 + |c|);
      NoMarkerPastEnd(s, |prefix| + 1 + |c|);
      assert !AnyStartsWithField(tail);
    } else {
      JoinCons(comps);
      PrefixGrows(prefix, c, Join(tail));
      MarkersSkipComponent(s, prefix, c, "." + Join(tail), |prefix| + 1 + |c|);
      assert forall x :: x in tail ==> x in comps;
      MarkersAfter(s, prefix + "." + c, tail);
    }
  }

  lemma NoMarkerPastEnd(s: string, from: int)
    requires from >= |s|
    ensures !MarkerFrom(s, from)
  {
    forall j | MarkerAt(s, j)
      ensures j < from
    {
      MarkerIsDot(s, j);
    }
  }

  /** A fragment `key.path` whose path starts with an API field splits back to key and path
      exactly when the key is nonempty and either it is all digits, or its first dot component is
      not and no later path component starts with a field name. */
  lemma FragmentSplitsBackIff(key: string, field: string, rest: seq<string>)
    requires field in API_CONFIG_FIELDS && forall c :: c in rest ==> DotFree(c)
    ensures SplitFragment(key + "." + Join([field] + rest)) == Some(Fragment(key, [field] + rest)) <==>
      (&& key != ""
       && if IsDigits(FirstOf(key)) then FirstOf(key) == key else !AnyStartsWithField(rest))
  {
    var path := [field] + rest;
    FieldsAreDotFree(field);
    assert forall c :: c in path ==> c == field || c in rest;
    SplitJoin(path);
    assert Join(path) != "";
    if IsDigits(FirstOf(key)) {
      DigitFragment(key, Join(path), path);
    } else {
      LastMarkerIsKey(key, field, rest);
      MarkerFragment(key, Join(path), path);
    }
  }

  /** A header named `key`: the fragment splits inside the headers. */
  lemma NestedFieldMovesSplit()
    ensures SplitFragment("local" + "." + Join(["headers", "key"])) != Some(Fragment("local", ["headers", "key"]))
  {
    assert API_CONFIG_FIELDS[8] == "headers" && API_CONFIG_FIELDS[1] == "key";
    assert FirstOf("local") == "local" by {
      FirstOfAppend("local", "");
      assert "local" + "" == "local";
    }
    assert "local"[0] == 'l';
    assert API_CONFIG_FIELDS[1] <= ["key"][0] && StartsWithField(["key"][0]);
    assert ["headers"] + ["key"] == ["headers", "key"];
    FragmentSplitsBackIff("local", "headers", ["key"]);
  }

  lemma DigitFragment(key: string, rest: string, path: seq<string>)
    requires IsDigits(FirstOf(key)) && rest != "" && Split(rest) == path
    ensures SplitFragment(key + "." + rest) == Some(Fragment(key, path)) <==> FirstOf(key) == key
  {
    FirstOfKey(key, rest);
    if FirstOf(key) == key {
      assert RestOf(key + "." + rest) == rest;
    }
  }

  lemma MarkerFragment(key: string, rest: string, path: seq<string>)
    requires !IsDigits(FirstOf(key)) && Split(rest) == path
    requires LastMarker(key + "." + rest) >= |key|
    ensures SplitFragment(key + "." + rest) == Some(Fragment(key, path)) <==>
      key != "" && LastMarker(key + "." + rest) == |key|
  {
    var s := key + "." + rest;
    FirstOfKey(key, rest);
    assert s[|key| + 1..] == rest && s[..|key|] == key;
  }

  lemma FirstOfKey(key: string, rest: string)
    ensures FirstOf(key + "." + rest) == FirstOf(key)
  {
    var first := FirstOf(key);
    var tail := key[|first|..] + "." + rest;
    assert key + "." + rest == first + tail;
    FirstOfAppend(first, tail);
  }

  /** The last marker is the dot after the key exactly when no later component starts with a
      field. */
  lemma LastMarkerIsKey(key: string, field: string, rest: seq<string>)
    requires field in API_CONFIG_FIELDS && forall c :: c in rest ==> DotFree(c)
    ensures var s := key + "." + Join([field] + rest);
      && LastMarker(s) >= |key|
      && (LastMarker(s) == |key| <==> !AnyStartsWithField(rest))
  {
    var s := key + "." + Join([field] + rest);
    FieldsAreDotFree(field);
    LastMarkerIsLast(s);
    assert ([field] + rest)[1..] == rest;
    if rest == [] {
      assert s == key + "." + field + "";
      MarkerAtComponent(key, field, "");
      NoMarkerInside(key, field, "");
      NoMarkerPastEnd(s, |key| + 1 + |field|);
    } else {
      JoinCons([field] + rest);
      PrefixGrows(key, field, Join(rest));
      MarkerAtComponent(key, field, "." + Join(rest));
      NoMarkerInside(key, field, "." + Join(rest));
      MarkersAfter(s, key + "." + field, rest);
    }
  }

  lemma NoMarkerInside(prefix: string, c: string, rest: string)
    requires DotFree(c)
    ensures forall j :: |prefix| < j < |prefix + "." + c| ==> !MarkerAt(prefix + "." + c + rest, j)
  {
    var s := prefix + "." + c + rest;
    forall j | |prefix| < j < |prefix + "." + c|
      ensures !MarkerAt(s, j)
    {
      assert s[j] == c[j - |prefix| - 1];
      assert c[j - |prefix| - 1] in c;
      if MarkerAt(s, j) {
        MarkerIsDot(s, j);
      }
    }
  }

  // ------------------------------------------------------------------ assembling the rows

  /** A stored row: what follows the configuration key and its dot, and the value. */
  datatype Stored = Stored(fragment: string, value: Json)

  /** The path a fragment stands for, in a value of connection dictionaries or a plain one. */
  function PathOf(isApi: bool, fragment: string): Option<seq<string>> {
    if isApi then
      match SplitFragment(fragment)
      case None => None
      case Some(f) => Some([f.key] + f.path)
    else Some(Split(fragment))
  }

  /** A connection key holding something that is no dictionary is left alone. */
  predicate Blocked(isApi: bool, repaired: Fields, path: seq<string>) {
    isApi && path != [] && path[0] in repaired && !repaired[path[0]].Obj?
  }

  lemma SplitPathsLong(fragment: string)
    ensures PathOf(true, fragment).Some? ==> |PathOf(true, fragment).value| >= 2
  {
  }

  /** The value assembled and the rows used up so far. */
  datatype Assembly = Assembly(repaired: Fields, orphans: seq<string>)

  function Taken(isApi: bool, a: Assembly, row: Stored): Assembly {
    match PathOf(isApi, row.fragment)
    case None => a
    case Some(path) =>
      if path == [] || Blocked(isApi, a.repaired, path) then a
      else Assembly(Assigned(a.repaired, path, row.value), a.orphans + [row.fragment])
  }

  /** What one row does: a row whose fragment stands for no path, or whose connection key holds something
      that is no dictionary, is left alone; any other is assigned at its path and used up. A
      connection row's path is its key and the path below it, a plain row's the components of its
      fragment. */
  lemma RowTaken(isApi: bool, a: Assembly, row: Stored)
    ensures var after := Taken(isApi, a, row);
      if !isApi then
        after == Assembly(Assigned(a.repaired, Split(row.fragment), row.value), a.orphans + [row.fragment])
      else
        match SplitFragment(row.fragment)
        case None => after == a
        case Some(f) =>
          after ==
            if f.key in a.repaired && a.repaired[f.key].Leaf? then a
            else Assembly(Assigned(a.repaired, [f.key] + f.path, row.value), a.orphans + [row.fragment])
  {
  }

  function Assembled(isApi: bool, existing: Fields, rows: seq<Stored>): Assembly {
    if rows == [] then Assembly(existing, [])
    else Taken(isApi, Assembled(isApi, existing, rows[..|rows| - 1]), rows[|rows| - 1])
  }

  /** The loop of the repair over the rows of one configuration key. `existing` is the value
      stored under the key itself, empty when there is none or it is no dictionary. */
  method RepairConfigRows(isApi: bool, existing: Fields, rows: seq<Stored>)
    returns (repaired: Fields, orphanKeys: seq<string>)
    ensures Assembly(repaired, orphanKeys) == Assembled(isApi, existing, rows)
  {
    repaired, orphanKeys := existing, [];
    for i := 0 to |rows|
      invariant Assembly(repaired, orphanKeys) == Assembled(isApi, existing, rows[..i])
    {
      assert rows[..i + 1][..i] == rows[..i];
      var row := rows[i];
      if isApi {
        var split := SplitApiConfigFragment(row.fragment);
        if split.None? {
          continue;
        }
        var key, path := split.value.key, split.value.path;
        if key in repaired && !repaired[key].Obj? {
          continue;
        }
        SplitPathsLong(row.fragment);
        assert ([key] + path)[1..] == path;
        repaired := repaired[key := Obj(Assigned(Sub(repaired, key), path, row.value))];
      } else {
        repaired := Assigned(repaired, Split(row.fragment), row.value);
      }
      orphanKeys := orphanKeys + [row.fragment];
    }
    assert rows[..|rows|] == rows;
  }

  /** The stored rows are those of the value, each fragment splitting back to its path. */
  ghost predicate StoredFrom(isApi: bool, stored: seq<Stored>, rows: seq<Row>) {
    && |stored| == |rows|
    && forall i :: 0 <= i < |rows| ==>
      && PathOf(isApi, stored[i].fragment) == Some(rows[i].path)
      && stored[i].value == rows[i].value
  }

  function Fragments(stored: seq<Stored>): seq<string> {
    if stored == [] then [] else Fragments(stored[..|stored| - 1]) + [stored[|stored| - 1].fragment]
  }

  /** A connection key of a part of such a value holds a dictionary. */
  lemma NeverBlocked(j: Json, done: set<seq<string>>, path: seq<string>)
    requires j.Obj? && path in Paths(j) && |path| >= 2
    ensures !Blocked(true, Part(j, done), path)
  {
    PathSplit(j, path);
    LongPathIsObj(j.fields[path[0]], path[1..]);
  }

  lemma {:induction false} AssembledIsRebuilt(isApi: bool, done: set<seq<string>>, stored: seq<Stored>, rows: seq<Row>,
      j: Json)
    requires j.Obj? && RowsFrom(rows, j) && StoredFrom(isApi, stored, rows)
    ensures forall r :: r in rows ==> r.path != []
    ensures Assembled(isApi, Part(j, done), stored) == Assembly(Rebuilt(Part(j, done), rows), Fragments(stored))
  {
    RowsHavePaths(rows, j);
    if rows != [] {
      var n := |rows| - 1;
      assert rows[n] in rows && forall r :: r in rows[..n] ==> r in rows;
      AssembledIsRebuilt(isApi, done, stored[..n], rows[..n], j);
      RebuiltIsPart(j, done, rows[..n]);
      if isApi {
        SplitPathsLong(stored[n].fragment);
        NeverBlocked(j, done + PathsOf(rows[..n]), rows[n].path);
      }
    }
  }

  /** Stored rows whose fragments split back, added in any order to the part of a dictionary already
      stored, give the part that both carry, and are all used up. */
  lemma RepairOfStored(isApi: bool, done: set<seq<string>>, stored: seq<Stored>, rows: seq<Row>, j: Json)
    requires j.Obj? && RowsFrom(rows, j) && StoredFrom(isApi, stored, rows)
    ensures Assembled(isApi, Part(j, done), stored) == Assembly(Part(j, done + PathsOf(rows)), Fragments(stored))
  {
    AssembledIsRebuilt(isApi, done, stored, rows, j);
    RebuiltIsPart(j, done, rows);
  }

  /** The rows as flattening stores them, keyed by their paths joined with dots. */
  function Dotted(rows: seq<Row>): (stored: seq<Stored>)
    ensures |stored| == |rows|
  {
    seq(|rows|, i requires 0 <= i < |rows| => Stored(Join(rows[i].path), rows[i].value))
  }

  /** A path below a connection key: the key, which may hold dots, an API field, and dot-free keys
      below it, none starting with a field name unless the key is an index. */
  ghost predicate ApiPath(path: seq<string>) {
    && |path| >= 2 && path[0] != "" && path[1] in API_CONFIG_FIELDS
    && (forall c :: c in path[2..] ==> DotFree(c))
    && if IsDigits(FirstOf(path[0])) then FirstOf(path[0]) == path[0] else !AnyStartsWithField(path[2..])
  }

  ghost predicate PlainPath(path: seq<string>) {
    path != [] && forall c :: c in path ==> DotFree(c)
  }

  lemma PathSplitsBack(isApi: bool, path: seq<string>)
    requires if isApi then ApiPath(path) else PlainPath(path)
    ensures PathOf(isApi, Join(path)) == Some(path)
  {
    if isApi {
      var key, field, rest := path[0], path[1], path[2..];
      assert path[1..] == [field] + rest;
      FragmentSplitsBackIff(key, field, rest);
      assert path == [key] + path[1..];
      assert Join(path) == key + "." + Join(path[1..]);
    } else {
      SplitJoin(path);
    }
  }

  /** Flattened rows split back: of plain values when no key holds a dot, of connection dictionaries
      although connection keys may hold dots. */
  lemma DottedSplitBack(isApi: bool, rows: seq<Row>)
    requires forall i :: 0 <= i < |rows| ==> if isApi then ApiPath(rows[i].path) else PlainPath(rows[i].path)
    ensures StoredFrom(isApi, Dotted(rows), rows)
  {
    forall i | 0 <= i < |rows|
      ensures PathOf(isApi, Dotted(rows)[i].fragment) == Some(rows[i].path)
    {
      PathSplitsBack(isApi, rows[i].path);
    }
  }

  /** Flattening a dictionary into dotted rows and repairing them, in any order, on top of the part of
      it already stored, gives the dictionary without its empty dictionaries once all rows are in,
      so the same dictionary exactly when it has none, and uses up every row: for plain values with
      dot-free keys, and for connection dictionaries. Nothing stored is the empty part. */
  lemma RepairUndoesFlattening(isApi: bool, done: set<seq<string>>, rows: seq<Row>, j: Json)
    requires j.Obj? && RowsFrom(rows, j) && done + PathsOf(rows) == Paths(j)
    requires forall p :: p in Paths(j) ==> if isApi then ApiPath(p) else PlainPath(p)
    ensures Part(j, {}) == map[]
    ensures Obj(Assembled(isApi, Part(j, done), Dotted(rows)).repaired) == Pruned(j)
    ensures Obj(Assembled(isApi, Part(j, done), Dotted(rows)).repaired) == j <==> NoEmpty(j)
    ensures Assembled(isApi, Part(j, done), Dotted(rows)).orphans == Fragments(Dotted(rows))
  {
    forall i | 0 <= i < |rows|
      ensures if isApi then ApiPath(rows[i].path) else PlainPath(rows[i].path)
    {
      assert rows[i] in rows && rows[i].path in Paths(j);
    }
    PartOfNothing(j);
    DottedSplitBack(isApi, rows);
    RepairOfStored(isApi, done, Dotted(rows), rows, j);
    WholePartIsPruned(j);
    PrunedIsIdentityIff(j);
  }
}
