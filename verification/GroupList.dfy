/** The list of the groups that a user is in. */
module GroupList {
  import opened Json
  import opened CMemory
  import GroupEntry
  import opened AccountFiles
  import opened Arithmetic
  import opened Vector

  // ---------------------------------------------------------------- a user's groups

  /** The gids, in file order, of the groups other than gid that list the user. */
  function GroupsOf(entries: seq<Entry>, user: string, gid: nat): seq<nat> {
    if entries == [] then []
    else
      var e := entries[0];
      (if e.Group? && e.group.gid != gid && user in e.group.members then [e.group.gid] else [])
      + GroupsOf(entries[1..], user, gid)
  }

  lemma GroupsOfStep(e: Entry, rest: seq<Entry>, user: string, gid: nat)
    requires e.Group?
    ensures GroupsOf([e] + rest, user, gid) ==
            (if e.group.gid != gid && user in e.group.members then [e.group.gid] else []) + GroupsOf(rest, user, gid)
  {
    assert ([e] + rest)[1..] == rest;
  }

  /** A group other than the user's own one that lists the user. */
  predicate Lists(e: Entry, user: string, gid: nat) {
    e.Group? && e.group.gid != gid && user in e.group.members
  }

  /** `at` are the places of all the groups that list the user, in order, and gids are their numbers. */
  ghost predicate AreListing(entries: seq<Entry>, user: string, gid: nat, gids: seq<nat>, at: seq<nat>) {
    && |at| == |gids|
    && (forall k :: 0 <= k < |at| ==> at[k] < |entries| && Lists(entries[at[k]], user, gid) && entries[at[k]].group.gid == gids[k])
    && (forall k, l :: 0 <= k < l < |at| ==> at[k] < at[l])
    && (forall i :: 0 <= i < |entries| && Lists(entries[i], user, gid) ==> i in at)
  }

  /** The gids are those of all the listing groups, each group once, in the order of the file. */
  lemma {:induction false} GroupsAreListing(entries: seq<Entry>, user: string, gid: nat) returns (at: seq<nat>)
    ensures AreListing(entries, user, gid, GroupsOf(entries, user, gid), at)
    decreases |entries|
  {
    if entries == [] {
      at := [];
    } else {
      var e, rest := entries[0], entries[1..];
      var later := GroupsAreListing(rest, user, gid);
      var shifted := seq(|later|, k requires 0 <= k < |later| => later[k] + 1);
      ListingShifted(entries, user, gid, GroupsOf(rest, user, gid), later, shifted);
      if Lists(e, user, gid) {
        at := [0] + shifted;
        assert GroupsOf(entries, user, gid) == [e.group.gid] + GroupsOf(rest, user, gid);
        ListingFirst(entries, user, gid, GroupsOf(rest, user, gid), shifted);
      } else {
        at := shifted;
        assert GroupsOf(entries, user, gid) == [] + GroupsOf(rest, user, gid) == GroupsOf(rest, user, gid);
      }
    }
  }

  /** All but the first entry have been looked at. */
  ghost predicate TailListing(entries: seq<Entry>, user: string, gid: nat, gids: seq<nat>, at: seq<nat>) {
    && |at| == |gids|
    && (forall k :: 0 <= k < |at| ==> 0 < at[k] < |entries| && Lists(entries[at[k]], user, gid) && entries[at[k]].group.gid == gids[k])
    && (forall k, l :: 0 <= k < l < |at| ==> at[k] < at[l])
    && (forall i :: 0 < i < |entries| && Lists(entries[i], user, gid) ==> i in at)
  }

  lemma ListingShifted(entries: seq<Entry>, user: string, gid: nat, gids: seq<nat>, at: seq<nat>, shifted: seq<nat>)
    requires entries != [] && AreListing(entries[1..], user, gid, gids, at)
    requires |shifted| == |at| && forall k :: 0 <= k < |at| ==> shifted[k] == at[k] + 1
    ensures TailListing(entries, user, gid, gids, shifted)
  {
    hide Lists;
    var rest := entries[1..];
    forall i | 0 < i < |entries| && Lists(entries[i], user, gid) ensures i in shifted {
      assert rest[i - 1] == entries[i];
      var k :| 0 <= k < |at| && at[k] == i - 1;
      assert shifted[k] == i;
    }
  }

  lemma ListingFirst(entries: seq<Entry>, user: string, gid: nat, gids: seq<nat>, at: seq<nat>)
    requires entries != [] && Lists(entries[0], user, gid) && TailListing(entries, user, gid, gids, at)
    ensures AreListing(entries, user, gid, [entries[0].group.gid] + gids, [0] + at)
  {
    hide Lists;
    var all := [0] + at;
    forall i | 0 <= i < |entries| && Lists(entries[i], user, gid) ensures i in all {
      if i > 0 { assert i in at; } else { assert all[0] == 0; }
    }
  }

  /** The walk over the member table up to its null. */
  method IsMember(buf: array<char>, base: nat, t: nat, user: string, ghost names: seq<string>) returns (found: bool)
    requires base > 0 && GroupEntry.IsTable(buf[..], base, t, names)
    ensures found <==> user in names
  {
    hide HasEnd, StrLen, Pointer, CStr, GroupEntry.IsTable;
    var m := t;
    ghost var k := 0;
    TableSlot(buf[..], base, t, names, 0);
    while Pointer(buf[..], m) != 0
      invariant 0 <= k <= |names| && m == t + 8 * k && forall j :: 0 <= j < k ==> names[j] != user
      invariant m + ADDRESS_SIZE <= buf.Length
      invariant Pointer(buf[..], m) == 0 <==> k == |names|
      decreases |names| - k
    {
      TableSlot(buf[..], base, t, names, k);
      var a := Pointer(buf[..], m);
      if CStr(buf[..], a - base) == user { return true; }
      TableSlot(buf[..], base, t, names, k + 1);
      m := m + ADDRESS_SIZE;
      k := k + 1;
    }
    found := false;
  }

  lemma TableSlot(mem: string, base: nat, t: nat, names: seq<string>, k: nat)
    requires base > 0 && GroupEntry.IsTable(mem, base, t, names) && k <= |names|
    ensures t + 8 * k + ADDRESS_SIZE <= |mem|
    ensures Pointer(mem, t + 8 * k) == 0 <==> k == |names|
    ensures k < |names| ==> var a := Pointer(mem, t + 8 * k); base <= a && HasEnd(mem, a - base) && CStr(mem, a - base) == names[k]
  {
    if k < |names| { assert GroupEntry.PointsAt(mem, base, t, k, names[k]); }
  }

  /** The room there is after n gids have been put in. */
  predicate HasRoom(length: nat, n: nat) {
    n >= 1 && length == if n <= 8 then 8 else (n - 1) / 8 * 8 + 9
  }

  /** getgrouplist_internal; a file that cannot be opened counts as empty. */
  method GroupListInternal(user: string, gid: nat, file: Option<string>, base: nat) returns (list: array<nat>, n: nat)
    requires base > 0 && IsAddress(base + PWD_BUFFER_SIZE) && (file.Some? ==> NUL !in file.value)
    ensures n <= list.Length && HasRoom(list.Length, n) && fresh(list)
    ensures list[..(n)] == [gid] + if file.None? then [] else GroupsOf(Entries(Groups, file.value, 0, base, PWD_BUFFER_SIZE), user, gid)
  {
    hide Next, Entries, GroupsOf, GroupEntry.Describes, GroupEntry.IsTable;
    list := new nat[8];
    list[0] := gid;
    n := 1;
    if file.None? { return; }
    var f := new Stream(file.value);
    var buff := new char[PWD_BUFFER_SIZE];
    ghost var goal := GroupsOf(Entries(Groups, f.text, 0, base, PWD_BUFFER_SIZE), user, gid);
    assert list[..1] == [gid];
    while true
      invariant f.text == file.value && f.pos <= |f.text| && fresh(list)
      invariant HasRoom(list.Length, n)
      invariant list[..n] + GroupsOf(Entries(Groups, f.text, f.pos, base, PWD_BUFFER_SIZE), user, gid) == [gid] + goal
      decreases |f.text| - f.pos
    {
      ghost var p, was := f.pos, list[..n];
      EntriesStep(Groups, f.text, p, base, PWD_BUFFER_SIZE);
      NextIsGroup(f.text, p, base, PWD_BUFFER_SIZE);
      var s, r := PgsReader(Groups, buff, base, f);
      if s != Found {
        NoGroups(user, gid);
        return;
      }
      ghost var next := Next(Groups, f.text, p, base, PWD_BUFFER_SIZE).value;
      ghost var rest := Entries(Groups, f.text, next.1, base, PWD_BUFFER_SIZE);
      GroupsOfStep(next.0, rest, user, gid);
      ghost var later := GroupsOf(rest, user, gid);
      var group := r.value.group;
      GroupFields(buff[..], base, group, next.0.group);
      if group.gid == gid { continue; }
      var found := IsMember(buff, base, group.mem, user, next.0.group.members);
      if found {
        list, n := Append(list, n, group.gid);
        assert was + ([group.gid] + later) == was + [group.gid] + later;
      }
    }
  }

  lemma GroupFields(mem: string, base: nat, r: GroupEntry.Record, g: GroupEntry.Group)
    requires GroupEntry.Describes(mem, base, r, g)
    ensures r.gid == g.gid && GroupEntry.IsTable(mem, base, r.mem, g.members)
  {
  }

  lemma NextIsGroup(text: string, p: nat, base: nat, size: nat)
    requires p <= |text|
    ensures Next(Groups, text, p, base, size).Some? ==> Next(Groups, text, p, base, size).value.0.Group?
    decreases |text| - p
  {
    if p < |text| { NextIsGroup(text, LineEnd(text, p), base, size); }
  }

  lemma NoGroups(user: string, gid: nat)
    ensures GroupsOf([], user, gid) == []
  {
  }

  /** One more gid, with room made for it first. */
  method Append(list: array<nat>, n: nat, gid: nat) returns (longer: array<nat>, m: nat)
    requires HasRoom(list.Length, n)
    modifies list
    ensures m == n + 1 && HasRoom(longer.Length, m) && (longer == list || fresh(longer))
    ensures n <= list.Length && longer[..m] == old(list[..n]) + [gid]
  {
    assert Power2(3) == 8;
    longer := XreallocVector(list, 3, n, 0);
    assert longer[..n] == list[..n];
    longer[n] := gid;
    m := n + 1;
  }

  /** getgrouplist: the list is copied only if it fits; how long it is is told either way. */
  method GetGroupList(user: string, gid: nat, groups: array<nat>, capacity: nat, file: Option<string>, base: nat)
    returns (rv: int, ngroups: nat)
    requires base > 0 && IsAddress(base + PWD_BUFFER_SIZE) && (file.Some? ==> NUL !in file.value)
    requires capacity <= groups.Length
    modifies groups
    ensures var all := [gid] + if file.None? then [] else GroupsOf(Entries(Groups, file.value, 0, base, PWD_BUFFER_SIZE), user, gid);
            && ngroups == |all|
            && if |all| <= capacity then rv == |all| && groups[..] == all + old(groups[|all|..])
               else rv == -1 && groups[..] == old(groups[..])
  {
    hide Entries, GroupsOf;
    var list;
    list, ngroups := GroupListInternal(user, gid, file, base);
    if ngroups > capacity { return -1, ngroups; }
    ghost var was, all := groups[..], list[..ngroups];
    for i := 0 to ngroups
      invariant groups[..i] == all[..i] && all == list[..ngroups]
      invariant forall j :: i <= j < groups.Length ==> groups[j] == was[j]
    {
      groups[i] := list[i];
    }
    assert groups[..] == groups[..ngroups] + groups[ngroups..] == all + was[ngroups..];
    rv := ngroups;
  }
}
