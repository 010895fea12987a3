/** Normalising the grants an API form sends
    (backend/open_webui/models/access_grants.py, normalize_access_grants). */
module AccessNormalize {
  import opened Collections
  import opened AccessGrants

  /** One element of a payload: no record, or the keys read from it. None stands for a missing key
      or a value that is no text. */
  datatype Payload =
    | NotARecord
    | Payload(id: Option<Id>, principalType: Option<string>, principalId: Option<Id>, permission: Option<string>)

  datatype Named = Named(id: Id, grant: Grant)

  const ANYONE_READ := Grant("anyone", WILDCARD, "read")

  predicate Acceptable(g: Grant) {
    && g.principalType in {"user", "group", "anyone"}
    && g.permission in {"read", "write"}
    && g.principalId != ""
    && (g.principalType == "anyone" ==> g == ANYONE_READ)
  }

  /** The grant an element asks for, if it is an acceptable one. */
  function KeyOf(p: Payload): Option<Grant> {
    if p.NotARecord? || p.principalType.None? || p.principalId.None? || p.permission.None? then None
    else
      var g := Grant(p.principalType.value, p.principalId.value, p.permission.value);
      if Acceptable(g) then Some(g) else None
  }

  /** An element asks for a grant exactly when it is a record that names it in all three keys: somebody,
      to read or write, and anyone at all only by the wildcard and to read. */
  lemma KeyOfIff(p: Payload, g: Grant)
    ensures KeyOf(p) == Some(g) <==>
      && p.Payload? && p.principalType == Some(g.principalType)
      && p.principalId == Some(g.principalId) && p.permission == Some(g.permission)
      && g.principalId != "" && (g.permission == "read" || g.permission == "write")
      && (|| g.principalType == "user" || g.principalType == "group"
          || (g.principalType == "anyone" && g.principalId == "*" && g.permission == "read"))
  {
  }

  function IdOf(p: Payload, uuid: Id): Id {
    if p.Payload? && p.id.Some? && p.id.value != "" then p.id.value else uuid
  }

  /** The dictionary of the grants seen: keys in first-seen order, each with the id seen last. */
  datatype Deduped = Deduped(keys: seq<Grant>, ids: map<Grant, Id>)

  function Noted(d: Deduped, p: Payload, uuid: Id): Deduped {
    match KeyOf(p)
    case None => d
    case Some(g) => Deduped(if g in d.ids then d.keys else d.keys + [g], d.ids[g := IdOf(p, uuid)])
  }

  /** `uuids` are the ids drawn, one for each element. */
  function AllNoted(payloads: seq<Payload>, uuids: seq<Id>): (d: Deduped)
    requires |payloads| == |uuids|
    ensures forall g :: g in d.keys <==> g in d.ids
  {
    if payloads == [] then Deduped([], map[])
    else
      var n := |payloads| - 1;
      Noted(AllNoted(payloads[..n], uuids[..n]), payloads[n], uuids[n])
  }

  /** `list(deduped.values())`. */
  function ValuesOf(d: Deduped): seq<Named>
    requires forall g :: g in d.keys ==> g in d.ids
  {
    seq(|d.keys|, i requires 0 <= i < |d.keys| => assert d.keys[i] in d.keys; Named(d.ids[d.keys[i]], d.keys[i]))
  }

  function Normalized(payloads: seq<Payload>, uuids: seq<Id>): seq<Named>
    requires |payloads| == |uuids|
  {
    ValuesOf(AllNoted(payloads, uuids))
  }

  method NormalizeAccessGrants(payloads: seq<Payload>, uuids: seq<Id>) returns (grants: seq<Named>)
    requires |payloads| == |uuids|
    ensures grants == Normalized(payloads, uuids)
  {
    if payloads == [] {
      return [];
    }
    var keys, ids := [], map[];
    for i := 0 to |payloads|
      invariant Deduped(keys, ids) == AllNoted(payloads[..i], uuids[..i])
    {
      assert payloads[..i + 1][..i] == payloads[..i] && uuids[..i + 1][..i] == uuids[..i];
      var key := KeyOf(payloads[i]);
      if key.None? {
        continue;
      }
      if key.value !in ids {
        keys := keys + [key.value];
      }
      ids := ids[key.value := IdOf(payloads[i], uuids[i])];
    }
    assert payloads[..|payloads|] == payloads && uuids[..|uuids|] == uuids;
    grants := ValuesOf(Deduped(keys, ids));
  }

  // ------------------------------------------------------------------ what normalising means

  ghost predicate Asked(payloads: seq<Payload>, g: Grant) {
    exists i :: 0 <= i < |payloads| && KeyOf(payloads[i]) == Some(g)
  }

  /** `id` is the one the last element asking for `g` gives. */
  ghost predicate LastNames(payloads: seq<Payload>, uuids: seq<Id>, g: Grant, id: Id)
    requires |payloads| == |uuids|
  {
    exists i ::
      && 0 <= i < |payloads| && KeyOf(payloads[i]) == Some(g) && id == IdOf(payloads[i], uuids[i])
      && forall l :: i < l < |payloads| ==> KeyOf(payloads[l]) != Some(g)
  }

  /** `g` is asked for before `h` ever is. */
  ghost predicate AskedBefore(payloads: seq<Payload>, g: Grant, h: Grant) {
    exists i ::
      && 0 <= i < |payloads| && KeyOf(payloads[i]) == Some(g)
      && forall l :: 0 <= l <= i ==> KeyOf(payloads[l]) != Some(h)
  }

  lemma AskedLonger(front: seq<Payload>, p: Payload, g: Grant)
    ensures Asked(front + [p], g) <==> Asked(front, g) || KeyOf(p) == Some(g)
  {
    var all := front + [p];
    assert all[|front|] == p;
    if Asked(front, g) {
      var i :| 0 <= i < |front| && KeyOf(front[i]) == Some(g);
      assert all[i] == front[i];
    }
    if Asked(all, g) {
      var i :| 0 <= i < |all| && KeyOf(all[i]) == Some(g);
      assert i < |front| ==> all[i] == front[i];
    }
  }

  lemma LastNamesLonger(front: seq<Payload>, uuids: seq<Id>, p: Payload, uuid: Id, g: Grant, id: Id)
    requires |front| == |uuids|
    requires if KeyOf(p) == Some(g) then id == IdOf(p, uuid) else LastNames(front, uuids, g, id)
    ensures LastNames(front + [p], uuids + [uuid], g, id)
  {
    var all, drawn := front + [p], uuids + [uuid];
    if KeyOf(p) == Some(g) {
      assert all[|front|] == p && drawn[|front|] == uuid;
    } else {
      var i :| 0 <= i < |front| && KeyOf(front[i]) == Some(g) && id == IdOf(front[i], uuids[i])
        && forall l :: i < l < |front| ==> KeyOf(front[l]) != Some(g);
      assert all[i] == front[i] && drawn[i] == uuids[i];
      assert forall l :: i < l < |all| ==> all[l] == if l < |front| then front[l] else p;
    }
  }

  lemma AskedBeforeLonger(front: seq<Payload>, p: Payload, g: Grant, h: Grant)
    requires AskedBefore(front, g, h) || (Asked(front, g) && !Asked(front, h))
    ensures AskedBefore(front + [p], g, h)
  {
    var all := front + [p];
    var i :| 0 <= i < |front| && KeyOf(front[i]) == Some(g)
      && forall l :: 0 <= l <= i ==> KeyOf(front[l]) != Some(h);
    assert forall l :: 0 <= l <= i ==> all[l] == front[l];
  }

  ghost predicate FirstAskedOrder(payloads: seq<Payload>, keys: seq<Grant>) {
    forall a, b :: 0 <= a < b < |keys| ==> AskedBefore(payloads, keys[a], keys[b])
  }

  lemma OrderLonger(front: seq<Payload>, p: Payload, before: seq<Grant>, keys: seq<Grant>)
    requires FirstAskedOrder(front, before)
    requires forall g :: g in before ==> Asked(front, g)
    requires keys == before || exists g :: keys == before + [g] && !Asked(front, g)
    ensures FirstAskedOrder(front + [p], keys)
  {
    forall a, b | 0 <= a < b < |keys|
      ensures AskedBefore(front + [p], keys[a], keys[b])
    {
      assert keys[a] == before[a] && before[a] in before;
      assert b < |before| ==> keys[b] == before[b];
      AskedBeforeLonger(front, p, keys[a], keys[b]);
    }
  }

  lemma {:induction false} NotedMeans(payloads: seq<Payload>, uuids: seq<Id>)
    requires |payloads| == |uuids|
    ensures var d := AllNoted(payloads, uuids);
      && Distinct(d.keys)
      && (forall g :: g in d.ids <==> Asked(payloads, g))
      && (forall g :: g in d.ids ==> LastNames(payloads, uuids, g, d.ids[g]))
      && FirstAskedOrder(payloads, d.keys)
  {
    if payloads != [] {
      var n := |payloads| - 1;
      var front, drawn, p, uuid := payloads[..n], uuids[..n], payloads[n], uuids[n];
      assert payloads == front + [p] && uuids == drawn + [uuid];
      NotedMeans(front, drawn);
      var before, d := AllNoted(front, drawn), AllNoted(payloads, uuids);
      forall g
        ensures g in d.ids <==> Asked(payloads, g)
        ensures g in d.ids ==> LastNames(payloads, uuids, g, d.ids[g])
      {
        AskedLonger(front, p, g);
        if g in d.ids {
          LastNamesLonger(front, drawn, p, uuid, g, d.ids[g]);
        }
      }
      OrderLonger(front, p, before.keys, d.keys);
    }
  }

  ghost predicate HasGrant(out: seq<Named>, g: Grant) {
    exists j :: 0 <= j < |out| && out[j].grant == g
  }

  /** Normalising lists each acceptable grant asked for once and nothing else, in the order first
      asked for, under the id the last element asking for it gives. */
  lemma NormalizedMeans(payloads: seq<Payload>, uuids: seq<Id>)
    requires |payloads| == |uuids|
    ensures var out := Normalized(payloads, uuids);
      && (forall g :: HasGrant(out, g) <==> Asked(payloads, g))
      && (forall a, b :: 0 <= a < b < |out| ==>
        out[a].grant != out[b].grant && AskedBefore(payloads, out[a].grant, out[b].grant))
      && forall j :: 0 <= j < |out| ==> LastNames(payloads, uuids, out[j].grant, out[j].id)
  {
    NotedMeans(payloads, uuids);
    var d, out := AllNoted(payloads, uuids), Normalized(payloads, uuids);
    forall g
      ensures HasGrant(out, g) <==> Asked(payloads, g)
    {
      if g in d.keys {
        var j :| 0 <= j < |d.keys| && d.keys[j] == g;
        assert out[j].grant == g;
      }
    }
    forall j | 0 <= j < |out|
      ensures LastNames(payloads, uuids, out[j].grant, out[j].id)
    {
      assert d.keys[j] in d.keys;
    }
  }

  // ------------------------------------------------------------------ normalising again

  /** A normalised list sent back as a payload. */
  function SentBack(out: seq<Named>): (payloads: seq<Payload>)
    ensures |payloads| == |out|
  {
    seq(|out|, i requires 0 <= i < |out| => AsPayload(out[i]))
  }

  function AsPayload(n: Named): Payload {
    Payload(Some(n.id), Some(n.grant.principalType), Some(n.grant.principalId), Some(n.grant.permission))
  }

  /** Acceptable grants, each once, under ids that are not empty. */
  ghost predicate Normal(out: seq<Named>) {
    && (forall j :: 0 <= j < |out| ==> out[j].id != "" && Acceptable(out[j].grant))
    && forall a, b :: 0 <= a < b < |out| ==> out[a].grant != out[b].grant
  }

  lemma NormalizedIsNormal(payloads: seq<Payload>, uuids: seq<Id>)
    requires |payloads| == |uuids| && "" !in uuids
    ensures Normal(Normalized(payloads, uuids))
  {
    NormalizedMeans(payloads, uuids);
    var out := Normalized(payloads, uuids);
    forall j | 0 <= j < |out|
      ensures out[j].id != "" && Acceptable(out[j].grant)
    {
      var i :| 0 <= i < |payloads| && KeyOf(payloads[i]) == Some(out[j].grant)
        && out[j].id == IdOf(payloads[i], uuids[i]);
      assert uuids[i] in uuids;
    }
  }

  /** The dictionary holds the list. */
  ghost predicate Holds(d: Deduped, out: seq<Named>) {
    && |d.keys| == |out|
    && (forall g :: g in d.keys <==> g in d.ids)
    && forall j :: 0 <= j < |out| ==> d.keys[j] == out[j].grant && d.ids[d.keys[j]] == out[j].id
  }

  lemma HoldsLonger(d: Deduped, front: seq<Named>, n: Named, uuid: Id)
    requires Holds(d, front) && Normal(front + [n])
    ensures Holds(Noted(d, AsPayload(n), uuid), front + [n])
  {
    var all := front + [n];
    assert all[|front|] == n;
    assert KeyOf(AsPayload(n)) == Some(n.grant);
    forall j | 0 <= j < |front|
      ensures d.keys[j] != n.grant && all[j] == front[j]
    {
      assert all[j].grant != all[|front|].grant;
    }
  }

  lemma {:induction false} NormalNoted(out: seq<Named>, uuids: seq<Id>)
    requires Normal(out) && |uuids| == |out|
    ensures Holds(AllNoted(SentBack(out), uuids), out)
  {
    if out != [] {
      var n := |out| - 1;
      var front, drawn := out[..n], uuids[..n];
      assert SentBack(out)[..n] == SentBack(front);
      NormalNoted(front, drawn);
      assert out == front + [out[n]];
      HoldsLonger(AllNoted(SentBack(front), drawn), front, out[n], uuids[n]);
    }
  }

  /** Normalising a normalised list changes nothing, whatever ids are drawn. */
  lemma NormalizeIdempotent(payloads: seq<Payload>, uuids: seq<Id>, others: seq<Id>)
    requires |payloads| == |uuids| && "" !in uuids
    requires |others| == |Normalized(payloads, uuids)|
    ensures Normalized(SentBack(Normalized(payloads, uuids)), others) == Normalized(payloads, uuids)
  {
    NormalizedIsNormal(payloads, uuids);
    var out := Normalized(payloads, uuids);
    NormalNoted(out, others);
    var again := Normalized(SentBack(out), others);
    assert forall j :: 0 <= j < |out| ==> again[j] == out[j];
  }

  // ------------------------------------------------------------------ normalised lists as dictionaries

  function GrantsIn(out: seq<Named>): seq<Grant> {
    seq(|out|, i requires 0 <= i < |out| => out[i].grant)
  }

  /** A normalised list survives the way to the dictionary and back, as a set of grants, exactly
      when it does not grant anyone, and grants nothing else beside a public read. */
  lemma NormalizedRoundTripIff(out: seq<Named>)
    requires Normal(out)
    ensures Elements(ToGrants(false, ToAccessControl(GrantsIn(out)))) == Elements(GrantsIn(out)) <==>
      if PUBLIC_READ in GrantsIn(out) then |out| == 1 else ANYONE_READ !in GrantsIn(out)
  {
    var grants := GrantsIn(out);
    RoundTripIff(false, grants);
    assert forall j :: 0 <= j < |out| ==> grants[j] == out[j].grant;
    assert forall g :: g in grants ==> Acceptable(g) && (Expressible(g) <==> g != ANYONE_READ);
    if PUBLIC_READ in grants {
      if |out| > 1 {
        assert grants[0] != grants[1] && grants[0] in grants && grants[1] in grants;
      }
    }
  }
}
