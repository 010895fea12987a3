/** Access-control dictionaries and flat grants (backend/open_webui/models/access_grants.py). */
module AccessGrants {
  import opened Collections

  type Id = string

  const WILDCARD := "*"

  /** The slim grant: the resource is fixed. */
  datatype Grant = Grant(principalType: string, principalId: Id, permission: string)

  const PUBLIC_READ := Grant("user", WILDCARD, "read")

  /** The lists of one permission; a missing or empty entry is two empty lists. */
  datatype Lists = Lists(groupIds: seq<Id>, userIds: seq<Id>)

  /** The legacy dictionary: None, the empty dictionary, or both permissions. */
  datatype AccessControl = Public | Private | Listed(read: Lists, write: Lists)

  // ------------------------------------------------------------------ to grants

  function GrantsFor(principalType: string, ids: seq<Id>, permission: string): seq<Grant> {
    if ids == [] then []
    else GrantsFor(principalType, ids[..|ids| - 1], permission) + [Grant(principalType, ids[|ids| - 1], permission)]
  }

  function GrantsOf(lists: Lists, permission: string): seq<Grant> {
    GrantsFor("group", lists.groupIds, permission) + GrantsFor("user", lists.userIds, permission)
  }

  /** `access_control_to_grants`; a file without a dictionary is private. */
  function ToGrants(isFile: bool, access: AccessControl): seq<Grant> {
    match access
    case Public => if isFile then [] else [PUBLIC_READ]
    case Private => []
    case Listed(read, write) => GrantsOf(read, "read") + GrantsOf(write, "write")
  }

  method AppendGrants(grants: seq<Grant>, principalType: string, ids: seq<Id>, permission: string)
    returns (more: seq<Grant>)
    ensures more == grants + GrantsFor(principalType, ids, permission)
  {
    more := grants;
    for i := 0 to |ids|
      invariant more == grants + GrantsFor(principalType, ids[..i], permission)
    {
      assert ids[..i + 1][..i] == ids[..i];
      more := more + [Grant(principalType, ids[i], permission)];
    }
    assert ids[..|ids|] == ids;
  }

  method AccessControlToGrants(isFile: bool, access: AccessControl) returns (grants: seq<Grant>)
    ensures grants == ToGrants(isFile, access)
  {
    grants := [];
    match access
    case Public =>
      if !isFile {
        grants := [PUBLIC_READ];
      }
    case Private =>
    case Listed(read, write) =>
      grants := AppendGrants(grants, "group", read.groupIds, "read");
      grants := AppendGrants(grants, "user", read.userIds, "read");
      assert grants == GrantsOf(read, "read");
      grants := AppendGrants(grants, "group", write.groupIds, "write");
      grants := AppendGrants(grants, "user", write.userIds, "write");
  }

  // ------------------------------------------------------------------ to the dictionary

  function WithId(ids: seq<Id>, id: Id): seq<Id> {
    if id in ids then ids else ids + [id]
  }

  function Filed(lists: Lists, g: Grant): Lists {
    if g.principalType == "group" then lists.(groupIds := WithId(lists.groupIds, g.principalId))
    else if g.principalType == "user" then lists.(userIds := WithId(lists.userIds, g.principalId))
    else lists
  }

  /** The lists one permission collects; the public read is not listed. */
  function Collected(grants: seq<Grant>, permission: string): Lists {
    if grants == [] then Lists([], [])
    else
      var before, g := Collected(grants[..|grants| - 1], permission), grants[|grants| - 1];
      if g == PUBLIC_READ || g.permission != permission then before else Filed(before, g)
  }

  /** `grants_to_access_control`. */
  function ToAccessControl(grants: seq<Grant>): AccessControl {
    if grants == [] then Private
    else if PUBLIC_READ in grants then Public
    else Listed(Collected(grants, "read"), Collected(grants, "write"))
  }

  method GrantsToAccessControl(grants: seq<Grant>) returns (access: AccessControl)
    ensures access == ToAccessControl(grants)
  {
    if grants == [] {
      return Private;
    }
    var read, write, isPublic := Lists([], []), Lists([], []), false;
    for i := 0 to |grants|
      invariant isPublic <==> PUBLIC_READ in grants[..i]
      invariant read == Collected(grants[..i], "read")
      invariant write == Collected(grants[..i], "write")
    {
      assert grants[..i + 1] == grants[..i] + [grants[i]];
      assert grants[..i + 1][..i] == grants[..i];
      var g := grants[i];
      if g == PUBLIC_READ {
        isPublic := true;
        continue;
      }
      if g.permission == "read" {
        read := Filed(read, g);
      } else if g.permission == "write" {
        write := Filed(write, g);
      }
    }
    assert grants[..|grants|] == grants;
    if isPublic {
      return Public;
    }
    return Listed(read, write);
  }

  // ------------------------------------------------------------------ what the conversions give

  /** The grants of one permission, as `grants` lists them: those of groups before those of users, each
      in the order of their list. */
  ghost predicate ListsInOrder(lists: Lists, permission: string, grants: seq<Grant>) {
    && (forall a, b :: a in lists.groupIds && b in lists.userIds ==>
      Before(grants, Grant("group", a, permission), Grant("user", b, permission)))
    && (forall a, b :: Before(lists.groupIds, a, b) ==>
      Before(grants, Grant("group", a, permission), Grant("group", b, permission)))
    && (forall a, b :: Before(lists.userIds, a, b) ==>
      Before(grants, Grant("user", a, permission), Grant("user", b, permission)))
  }

  lemma {:induction false} GrantsForOrder(principalType: string, ids: seq<Id>, permission: string)
    ensures |GrantsFor(principalType, ids, permission)| == |ids|
    ensures forall a :: a in ids ==> Grant(principalType, a, permission) in GrantsFor(principalType, ids, permission)
    ensures forall a, b :: Before(ids, a, b) ==>
      Before(GrantsFor(principalType, ids, permission), Grant(principalType, a, permission),
        Grant(principalType, b, permission))
  {
    if ids != [] {
      var front, last := ids[..|ids| - 1], ids[|ids| - 1];
      assert ids == front + [last];
      GrantsForOrder(principalType, front, permission);
      var grants, g := GrantsFor(principalType, front, permission), Grant(principalType, last, permission);
      forall a, b | Before(ids, a, b)
        ensures Before(grants + [g], Grant(principalType, a, permission), Grant(principalType, b, permission))
      {
        BeforeAppend(front, [last], a, b);
        BeforeAppend(grants, [g], Grant(principalType, a, permission), Grant(principalType, b, permission));
      }
    }
  }

  lemma GrantsOfOrder(lists: Lists, permission: string)
    ensures ListsInOrder(lists, permission, GrantsOf(lists, permission))
    ensures |GrantsOf(lists, permission)| == |lists.groupIds| + |lists.userIds|
  {
    GrantsForOrder("group", lists.groupIds, permission);
    GrantsForOrder("user", lists.userIds, permission);
    var groups, users := GrantsFor("group", lists.groupIds, permission), GrantsFor("user", lists.userIds, permission);
    forall g, h
      ensures Before(groups, g, h) || Before(users, g, h) || (g in groups && h in users) ==>
        Before(groups + users, g, h)
    {
      BeforeAppend(groups, users, g, h);
    }
  }

  /** The grants of a dictionary: one for each entry of its lists, reading before writing. None is a
      public read, for a file nothing; the empty dictionary is nothing. */
  lemma ToGrantsLists(isFile: bool, read: Lists, write: Lists)
    ensures ToGrants(isFile, Public) == (if isFile then [] else [Grant("user", "*", "read")])
    ensures ToGrants(isFile, Private) == []
    ensures var grants := ToGrants(isFile, Listed(read, write));
      && |grants| == |read.groupIds| + |read.userIds| + |write.groupIds| + |write.userIds|
      && ListsInOrder(read, "read", grants) && ListsInOrder(write, "write", grants)
      && forall g, h :: g in grants && h in grants && g.permission == "read" && h.permission == "write" ==>
        Before(grants, g, h)
  {
    GrantsOfOrder(read, "read");
    GrantsOfOrder(write, "write");
    var reading, writing := GrantsOf(read, "read"), GrantsOf(write, "write");
    GrantsOfPermission(read, "read");
    GrantsOfPermission(write, "write");
    assert "read"[0] != "write"[0];
    forall g, h
      ensures Before(reading, g, h) || Before(writing, g, h) || (g in reading && h in writing) ==>
        Before(reading + writing, g, h)
    {
      BeforeAppend(reading, writing, g, h);
    }
  }

  lemma GrantsOfPermission(lists: Lists, permission: string)
    ensures forall g :: g in GrantsOf(lists, permission) ==> g.permission == permission
  {
    GrantsForMembers("group", lists.groupIds, permission);
    GrantsForMembers("user", lists.userIds, permission);
  }

  /** The dictionary of grants: empty exactly without grants, None exactly with a public read among
      them; else its lists hold, once each, the groups and users granted each permission. */
  lemma ToAccessControlLists(grants: seq<Grant>)
    ensures var access := ToAccessControl(grants);
      && (access == Private <==> grants == [])
      && (access == Public <==> Grant("user", "*", "read") in grants)
      && (access.Listed? ==>
        && ListsGranted(access.read, "read", grants) && ListsGranted(access.write, "write", grants))
  {
    CollectedMembers(grants, "read");
    CollectedMembers(grants, "write");
    assert "read"[0] != "write"[0];
  }

  ghost predicate ListsGranted(lists: Lists, permission: string, grants: seq<Grant>) {
    && Distinct(lists.groupIds) && Distinct(lists.userIds)
    && (forall id :: id in lists.groupIds <==> Grant("group", id, permission) in grants)
    && (forall id :: id in lists.userIds <==> Grant("user", id, permission) in grants)
  }

  // ------------------------------------------------------------------ round trip

  /** A grant the dictionary can express in its lists. */
  predicate Expressible(g: Grant) {
    g.principalType in {"user", "group"} && g.permission in {"read", "write"}
  }

  lemma {:induction false} GrantsForMembers(principalType: string, ids: seq<Id>, permission: string)
    ensures forall g :: g in GrantsFor(principalType, ids, permission) <==>
      g.principalType == principalType && g.permission == permission && g.principalId in ids
  {
    if ids != [] {
      assert ids == ids[..|ids| - 1] + [ids[|ids| - 1]];
      GrantsForMembers(principalType, ids[..|ids| - 1], permission);
    }
  }

  lemma {:induction false} CollectedMembers(grants: seq<Grant>, permission: string)
    ensures forall id :: id in Collected(grants, permission).groupIds <==> Grant("group", id, permission) in grants
    ensures forall id :: id in Collected(grants, permission).userIds <==>
      Grant("user", id, permission) in grants && Grant("user", id, permission) != PUBLIC_READ
    ensures Distinct(Collected(grants, permission).groupIds) && Distinct(Collected(grants, permission).userIds)
  {
    if grants != [] {
      assert grants == grants[..|grants| - 1] + [grants[|grants| - 1]];
      CollectedMembers(grants[..|grants| - 1], permission);
    }
  }

  lemma GrantsOfCollected(grants: seq<Grant>, permission: string)
    ensures forall g :: g in GrantsOf(Collected(grants, permission), permission) <==>
      g in grants && g.permission == permission && g.principalType in {"user", "group"} && g != PUBLIC_READ
  {
    var lists := Collected(grants, permission);
    CollectedMembers(grants, permission);
    GrantsForMembers("group", lists.groupIds, permission);
    GrantsForMembers("user", lists.userIds, permission);
    forall g
      ensures g in GrantsOf(lists, permission) <==>
        g in grants && g.permission == permission && g.principalType in {"user", "group"} && g != PUBLIC_READ
    {
      assert g == Grant(g.principalType, g.principalId, g.permission);
    }
  }

  /** What the round trip keeps: the expressible grants; with a public read among them, that grant
      alone, and for a file nothing. */
  lemma RoundTripKeeps(isFile: bool, grants: seq<Grant>)
    ensures forall g :: g in ToGrants(isFile, ToAccessControl(grants)) <==>
      if PUBLIC_READ in grants then !isFile && g == PUBLIC_READ else g in grants && Expressible(g)
  {
    GrantsOfCollected(grants, "read");
    GrantsOfCollected(grants, "write");
  }

  /** Converting to the dictionary and back yields the same set of grants exactly when every grant
      is for a user or a group, to read or write, and a public read stands alone on a resource
      that is no file. */
  lemma RoundTripIff(isFile: bool, grants: seq<Grant>)
    ensures Elements(ToGrants(isFile, ToAccessControl(grants))) == Elements(grants) <==>
      if PUBLIC_READ in grants then !isFile && forall g :: g in grants ==> g == PUBLIC_READ
      else forall g :: g in grants ==> Expressible(g)
  {
    var back := ToGrants(isFile, ToAccessControl(grants));
    RoundTripKeeps(isFile, grants);
    assert Elements(back) == Elements(grants) <==> forall g :: g in back <==> g in grants by {
      if Elements(back) == Elements(grants) {
        forall g
          ensures g in back <==> g in grants
        {
          assert g in Elements(back) <==> g in Elements(grants);
        }
      }
    }
    if forall g :: g in back <==> g in grants {
      forall g | g in grants
        ensures g in back
      {
      }
    }
  }

  /** A write grant beside a public read is gone after the round trip. */
  lemma PublicReadDropsWriteGrant(user: Id)
    ensures var write := Grant("user", user, "write");
      write !in ToGrants(false, ToAccessControl([PUBLIC_READ, write]))
  {
    var write := Grant("user", user, "write");
    assert [PUBLIC_READ, write][0] == PUBLIC_READ;
    RoundTripKeeps(false, [PUBLIC_READ, write]);
    assert "read"[0] != "write"[0];
  }

  lemma {:induction false} CollectedOther(a: seq<Grant>, principalType: string, ids: seq<Id>, permission: string,
      other: string)
    requires permission != other
    ensures Collected(a + GrantsFor(principalType, ids, permission), other) == Collected(a, other)
  {
    var more := GrantsFor(principalType, ids, permission);
    if ids == [] {
      assert a + more == a;
    } else {
      assert (a + more)[..|a + more| - 1] == a + GrantsFor(principalType, ids[..|ids| - 1], permission);
      CollectedOther(a, principalType, ids[..|ids| - 1], permission, other);
    }
  }

  /** One more grant of the permission is filed. */
  lemma CollectedOne(a: seq<Grant>, principalType: string, front: seq<Id>, id: Id, permission: string)
    requires Grant(principalType, id, permission) != PUBLIC_READ
    ensures Collected(a + GrantsFor(principalType, front + [id], permission), permission) ==
      Filed(
        Collected(a + GrantsFor(principalType, front, permission), permission),
        Grant(principalType, id, permission))
  {
    var g := Grant(principalType, id, permission);
    var before := a + GrantsFor(principalType, front, permission);
    assert (front + [id])[..|front|] == front;
    assert a + GrantsFor(principalType, front + [id], permission) == before + [g];
    assert (before + [g])[..|before|] == before;
  }

  lemma {:induction false} CollectedGroups(a: seq<Grant>, ids: seq<Id>, permission: string)
    requires Distinct(ids) && Collected(a, permission).groupIds == []
    ensures Collected(a + GrantsFor("group", ids, permission), permission) == Collected(a, permission).(groupIds := ids)
  {
    if ids == [] {
      assert a + GrantsFor("group", ids, permission) == a;
    } else {
      var front, id := ids[..|ids| - 1], ids[|ids| - 1];
      assert ids == front + [id] && id !in front;
      CollectedGroups(a, front, permission);
      CollectedOne(a, "group", front, id, permission);
    }
  }

  lemma {:induction false} CollectedUsers(a: seq<Grant>, ids: seq<Id>, permission: string)
    requires Distinct(ids) && Collected(a, permission).userIds == []
    requires permission == "read" ==> WILDCARD !in ids
    ensures Collected(a + GrantsFor("user", ids, permission), permission) == Collected(a, permission).(userIds := ids)
  {
    if ids == [] {
      assert a + GrantsFor("user", ids, permission) == a;
    } else {
      var front, id := ids[..|ids| - 1], ids[|ids| - 1];
      assert ids == front + [id] && id !in front && id in ids;
      CollectedUsers(a, front, permission);
      CollectedOne(a, "user", front, id, permission);
    }
  }

  /** Both lists of one permission, appended to grants of the other. */
  lemma CollectedLists(a: seq<Grant>, lists: Lists, permission: string, other: string)
    requires Distinct(lists.groupIds) && Distinct(lists.userIds)
    requires permission == "read" ==> WILDCARD !in lists.userIds
    requires permission != other && Collected(a, permission) == Lists([], [])
    ensures Collected(a + GrantsOf(lists, permission), permission) == lists
    ensures Collected(a + GrantsOf(lists, permission), other) == Collected(a, other)
  {
    var groups, users := GrantsFor("group", lists.groupIds, permission), GrantsFor("user", lists.userIds, permission);
    assert a + GrantsOf(lists, permission) == (a + groups) + users;
    CollectedGroups(a, lists.groupIds, permission);
    CollectedUsers(a + groups, lists.userIds, permission);
    CollectedOther(a, "group", lists.groupIds, permission, other);
    CollectedOther(a + groups, "user", lists.userIds, permission, other);
  }

  lemma GrantsOfMembers(lists: Lists, permission: string)
    ensures forall g :: g in GrantsOf(lists, permission) ==> g.permission == permission
    ensures Grant("user", WILDCARD, permission) in GrantsOf(lists, permission) <==> WILDCARD in lists.userIds
    ensures GrantsOf(lists, permission) == [] <==> lists == Lists([], [])
  {
    GrantsForMembers("group", lists.groupIds, permission);
    GrantsForMembers("user", lists.userIds, permission);
    if lists.groupIds != [] {
      assert Grant("group", lists.groupIds[0], permission) in GrantsFor("group", lists.groupIds, permission);
    }
    if lists.userIds != [] {
      assert Grant("user", lists.userIds[0], permission) in GrantsFor("user", lists.userIds, permission);
    }
  }

  /** Lists without duplicates, no wildcard reader, and not all empty. */
  ghost predicate Canonical(read: Lists, write: Lists) {
    && Distinct(read.groupIds) && Distinct(read.userIds)
    && Distinct(write.groupIds) && Distinct(write.userIds)
    && WILDCARD !in read.userIds
    && (read != Lists([], []) || write != Lists([], []))
  }

  /** A dictionary survives the way to grants and back, lists in order, exactly when its lists
      hold no duplicate, its read list no wildcard, and some list is not empty. */
  lemma DictionaryRoundTripIff(isFile: bool, read: Lists, write: Lists)
    ensures ToAccessControl(ToGrants(isFile, Listed(read, write))) == Listed(read, write) <==> Canonical(read, write)
  {
    var none: seq<Grant> := [];
    var grants := ToGrants(isFile, Listed(read, write));
    GrantsOfMembers(read, "read");
    GrantsOfMembers(write, "write");
    if Canonical(read, write) {
      assert none + GrantsOf(read, "read") == GrantsOf(read, "read");
      CollectedLists(none, read, "read", "write");
      CollectedLists(GrantsOf(read, "read"), write, "write", "read");
    } else {
      CollectedMembers(grants, "read");
      CollectedMembers(grants, "write");
      GrantsForMembers("user", read.userIds, "read");
    }
  }
}
