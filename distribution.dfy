/** EmailDistribution: the sender and the three recipient roles of a message.
    Each role maps a group name to the set of addresses filed under it: a
    single address goes to the group "staticaddr", a group address to its own
    name, expanded recursively into its single members. Identity (hashCode and
    equals) is a sum of address hashes, so it ignores how addresses are grouped. */
module Distributions {
  import opened Common
  import opened Sums

  const LISTTYPE_FROM: string := "FROM"
  const LISTTYPE_TO: string := "TO"
  const LISTTYPE_CC: string := "CC"
  const LISTTYPE_BCC: string := "BCC"
  const GROUP_STATIC: string := "staticaddr"

  /** A parsed InternetAddress: a single mailbox (its address text) or a group
      literal `name:member,member;` whose members are themselves addresses. */
  datatype Addr = Single(address: string) | Group(name: string, members: seq<Addr>)

  /** One role's groups: group name to the addresses filed under it. */
  type RoleMap = map<string, set<string>>

  /** The value of a distribution: the sender and the TO, CC and BCC roles. */
  datatype Dist = Dist(from: Addr, to: RoleMap, cc: RoleMap, bcc: RoleMap)

  datatype Role = TO | CC | BCC

  // ---------------------------------------------------------------------------
  // Addresses

  /** getAddress() / toUnicodeString() without personal names: a group renders as `name:m1,m2;`. */
  function AddressText(a: Addr): string
    decreases a
  {
    match a
    case Single(s) => s
    case Group(name, ms) => name + ":" + MembersText(ms) + ";"
  }

  function MembersText(ms: seq<Addr>): string
    decreases ms
  {
    if ms == [] then ""
    else if |ms| == 1 then AddressText(ms[0])
    else AddressText(ms[0]) + "," + MembersText(ms[1..])
  }

  /** The group add2DistByAddress files an address under: "staticaddr" for a single
      address, the text before the first ':' of a group's rendering for a group. */
  function GroupOf(a: Addr): string
  {
    match a
    case Single(_) => GROUP_STATIC
    case Group(_, _) => Before(AddressText(a), ':')
  }

  /** groupToSet: the single addresses a (possibly nested) group expands to. */
  function GroupToSet(a: Addr): set<string>
    decreases a
  {
    match a
    case Single(s) => {s}
    case Group(_, ms) => GroupToSetAll(ms)
  }

  function GroupToSetAll(ms: seq<Addr>): set<string>
    decreases ms
  {
    if ms == [] then {} else GroupToSet(ms[0]) + GroupToSetAll(ms[1..])
  }

  /** Reference definition: the single addresses of an address tree, left to right. */
  function Leaves(a: Addr): seq<string>
    decreases a
  {
    match a
    case Single(s) => [s]
    case Group(_, ms) => LeavesAll(ms)
  }

  function LeavesAll(ms: seq<Addr>): seq<string>
    decreases ms
  {
    if ms == [] then [] else Leaves(ms[0]) + LeavesAll(ms[1..])
  }

  /** A group is filed under its own name when the name has no ':'. */
  lemma GroupOfGroup(name: string, ms: seq<Addr>)
    requires ':' !in name
    ensures GroupOf(Group(name, ms)) == name
  {
    assert AddressText(Group(name, ms)) == name + [':'] + (MembersText(ms) + ";");
    BeforeMarker(name, ':', MembersText(ms) + ";");
  }

  /** groupToSet expands a group to exactly the single addresses at the leaves of its tree. */
  lemma {:induction false} GroupToSetIsLeaves(a: Addr)
    ensures forall x :: x in GroupToSet(a) <==> x in Leaves(a)
    decreases a
  {
    match a
    case Single(_) =>
    case Group(_, ms) => GroupToSetAllIsLeaves(ms);
  }

  lemma {:induction false} GroupToSetAllIsLeaves(ms: seq<Addr>)
    ensures forall x :: x in GroupToSetAll(ms) <==> x in LeavesAll(ms)
    decreases ms
  {
    if ms != [] {
      GroupToSetIsLeaves(ms[0]);
      GroupToSetAllIsLeaves(ms[1..]);
    }
  }

  // ---------------------------------------------------------------------------
  // Filing addresses (add2DistByAddress)

  function GroupOrEmpty(m: RoleMap, g: string): set<string>
  {
    if g in m then m[g] else {}
  }

  /** The map after filing one address: its expansion joins its group's set. */
  function FileOne(m: RoleMap, a: Addr): RoleMap
  {
    m[GroupOf(a) := GroupOrEmpty(m, GroupOf(a)) + GroupToSet(a)]
  }

  /** The map after filing the addresses one after another. */
  function FileAll(m: RoleMap, addrs: seq<Addr>): RoleMap
    decreases |addrs|
  {
    if addrs == [] then m else FileOne(FileAll(m, addrs[..|addrs| - 1]), addrs[|addrs| - 1])
  }

  /** The flag add2DistByAddress computes for one address: its group was new,
      or addAll grew the existing set. */
  predicate FilingChanges(m: RoleMap, a: Addr)
  {
    GroupOf(a) !in m || !(GroupToSet(a) <= m[GroupOf(a)])
  }

  /** The groups the addresses are filed under. */
  function GroupsOf(addrs: seq<Addr>): set<string>
  {
    set a | a in addrs :: GroupOf(a)
  }

  /** Everything the addresses filed under group g expand to. */
  function FiledUnder(addrs: seq<Addr>, g: string): set<string>
  {
    set a, x | a in addrs && GroupOf(a) == g && x in GroupToSet(a) :: x
  }

  lemma GroupsOfSnoc(init: seq<Addr>, last: Addr)
    ensures GroupsOf(init + [last]) == GroupsOf(init) + {GroupOf(last)}
  {
    var addrs := init + [last];
    forall a ensures a in addrs <==> a in init || a == last {
      if a in addrs {
        var i :| 0 <= i < |addrs| && addrs[i] == a;
        if i < |init| { assert init[i] == a; }
      }
    }
  }

  lemma FiledUnderSnoc(init: seq<Addr>, last: Addr, g: string)
    ensures FiledUnder(init + [last], g) == FiledUnder(init, g) + (if GroupOf(last) == g then GroupToSet(last) else {})
  {
    var addrs := init + [last];
    forall a ensures a in addrs <==> a in init || a == last {
      if a in addrs {
        var i :| 0 <= i < |addrs| && addrs[i] == a;
        if i < |init| { assert init[i] == a; }
      }
    }
    forall y | y in FiledUnder(addrs, g) ensures y in FiledUnder(init, g) + (if GroupOf(last) == g then GroupToSet(last) else {}) {
      var a :| a in addrs && GroupOf(a) == g && y in GroupToSet(a);
      if a != last { assert a in init; }
    }
  }

  /** A group no address is filed under receives nothing. */
  lemma FiledUnderOutside(addrs: seq<Addr>, g: string)
    requires g !in GroupsOf(addrs)
    ensures FiledUnder(addrs, g) == {}
  {
    forall a | a in addrs ensures GroupOf(a) != g {
      assert GroupOf(a) in GroupsOf(addrs);
    }
  }

  /** The step of FileAllContents: filing one more address keeps the description true. */
  lemma FileOneContents(m: RoleMap, init: seq<Addr>, last: Addr, prev: RoleMap)
    requires prev.Keys == m.Keys + GroupsOf(init)
    requires forall g :: g in prev ==> prev[g] == GroupOrEmpty(m, g) + FiledUnder(init, g)
    ensures FileOne(prev, last).Keys == m.Keys + GroupsOf(init + [last])
    ensures forall g :: g in FileOne(prev, last) ==>
      FileOne(prev, last)[g] == GroupOrEmpty(m, g) + FiledUnder(init + [last], g)
  {
    GroupsOfSnoc(init, last);
    var next := FileOne(prev, last);
    forall g | g in next ensures next[g] == GroupOrEmpty(m, g) + FiledUnder(init + [last], g) {
      FiledUnderSnoc(init, last, g);
      if g == GroupOf(last) && g !in prev {
        FiledUnderOutside(init, g);
      }
    }
  }

  /** What filing does, stated without the order of the steps: the groups are the old ones
      plus those of the addresses, and each group holds its old members plus the
      expansions of the addresses filed under it. */
  lemma {:induction false} FileAllContents(m: RoleMap, addrs: seq<Addr>)
    ensures FileAll(m, addrs).Keys == m.Keys + GroupsOf(addrs)
    ensures forall g :: g in FileAll(m, addrs) ==> FileAll(m, addrs)[g] == GroupOrEmpty(m, g) + FiledUnder(addrs, g)
    decreases |addrs|
  {
    if addrs == [] {
      forall g | g in m ensures m[g] == GroupOrEmpty(m, g) + FiledUnder(addrs, g) {
        assert FiledUnder(addrs, g) == {};
      }
      assert GroupsOf(addrs) == {};
    } else {
      var n := |addrs| - 1;
      var init := addrs[..n];
      FileAllContents(m, init);
      assert addrs == init + [addrs[n]];
      FileOneContents(m, init, addrs[n], FileAll(m, init));
    }
  }

  /** add2DistByAddress: files every address and reports whether filing the LAST one changed
      anything (false for no addresses); the earlier addresses' outcomes are overwritten. */
  method Add2DistByAddress(m: RoleMap, addrs: seq<Addr>) returns (m': RoleMap, changed: bool)
    ensures m' == FileAll(m, addrs)
    ensures changed <==> |addrs| > 0 && FilingChanges(FileAll(m, addrs[..|addrs| - 1]), addrs[|addrs| - 1])
  {
    m' := m;
    changed := false;
    ghost var prev := m;
    var i := 0;
    while i < |addrs|
      invariant 0 <= i <= |addrs|
      invariant m' == FileAll(m, addrs[..i])
      invariant i > 0 ==> prev == FileAll(m, addrs[..i - 1])
      invariant changed <==> i > 0 && FilingChanges(prev, addrs[i - 1])
    {
      FileAllPrefix(m, addrs, i);
      prev := m';
      m', changed := FileAddress(m', addrs[i]);
      i := i + 1;
    }
    assert addrs[..|addrs|] == addrs;
  }

  /** Filing one more address of the list files it after the ones before it. */
  lemma FileAllPrefix(m: RoleMap, addrs: seq<Addr>, i: nat)
    requires i < |addrs|
    ensures FileAll(m, addrs[..i + 1]) == FileOne(FileAll(m, addrs[..i]), addrs[i])
  {
    assert addrs[..i + 1][..i] == addrs[..i] && addrs[..i + 1][i] == addrs[i];
  }

  /** One turn of add2DistByAddress: the address's expansion joins its group's set, and the flag
      says whether the group was new or its set grew. */
  method FileAddress(m: RoleMap, addr: Addr) returns (m': RoleMap, changed: bool)
    ensures m' == FileOne(m, addr)
    ensures changed <==> FilingChanges(m, addr)
  {
    var group := GROUP_STATIC;
    if addr.Group? {
      group := Before(AddressText(addr), ':');
    }
    var expansion := GroupToSet(addr);
    assert group == GroupOf(addr);
    if group !in m {
      changed := true;
      m' := m[group := expansion];
      assert GroupOrEmpty(m, group) + expansion == expansion;
    } else {
      changed := !(expansion <= m[group]);
      m' := m[group := m[group] + expansion];
    }
  }

  // ---------------------------------------------------------------------------
  // Flattening (getFlatDist)

  /** Every address of every group of a role. */
  function Flat(m: RoleMap): set<string>
  {
    set g, x | g in m && x in m[g] :: x
  }

  predicate NoDup<T(==)>(s: seq<T>)
  {
    forall i, j :: 0 <= i < j < |s| ==> s[i] != s[j]
  }

  /** getFlatDist: null for a role without groups, otherwise the union of its groups as an
      array without repetitions (in the HashSet's order, here chosen freely). */
  method GetFlatDist(m: RoleMap) returns (r: Option<seq<string>>)
    ensures r.None? <==> |m| == 0
    ensures r.Some? ==> NoDup(r.value) && forall x :: x in r.value <==> x in Flat(m)
  {
    if |m| == 0 {
      return None;
    }
    var addresses: set<string> := {};
    var groups := m.Keys;
    while groups != {}
      invariant groups <= m.Keys
      invariant forall x :: x in addresses <==> exists g :: g in m.Keys - groups && x in m[g]
      decreases groups
    {
      var g :| g in groups;
      addresses := addresses + m[g];
      groups := groups - {g};
    }
    var arr: seq<string> := [];
    var rest := addresses;
    while rest != {}
      invariant rest <= addresses
      invariant NoDup(arr)
      invariant forall x :: x in arr <==> x in addresses && x !in rest
      decreases rest
    {
      var x :| x in rest;
      arr := arr + [x];
      rest := rest - {x};
    }
    return Some(arr);
  }

  // ---------------------------------------------------------------------------
  // Identity: hashCode and equals

  ghost function GroupSum(members: set<string>): int
  {
    SumOver(members, StringHash)
  }

  ghost function GroupTerm(m: RoleMap): string -> int
  {
    g => if g in m then GroupSum(m[g]) else 0
  }

  /** The (unwrapped) sum of the hashes of every member of every group of a role. */
  ghost function RoleSum(m: RoleMap): int
  {
    SumOver(m.Keys, GroupTerm(m))
  }

  ghost function Total(d: Dist): int
  {
    StringHash(AddressText(d.from)) + RoleSum(d.to) + RoleSum(d.cc) + RoleSum(d.bcc)
  }

  /** hashCode(): the sender's hash plus every group member's hash, in Java int arithmetic. */
  ghost function DistHash(d: Dist): int
  {
    Int32(Total(d))
  }

  /** equals(): two distributions are equal when their hashes are. */
  ghost predicate Equal(d1: Dist, d2: Dist)
  {
    DistHash(d1) == DistHash(d2)
  }

  function RoleMapOf(d: Dist, r: Role): RoleMap
  {
    match r
    case TO => d.to
    case CC => d.cc
    case BCC => d.bcc
  }

  function WithRole(d: Dist, r: Role, m: RoleMap): Dist
  {
    match r
    case TO => d.(to := m)
    case CC => d.(cc := m)
    case BCC => d.(bcc := m)
  }

  /** Replacing one group's set changes a role's sum by the difference of the two sets' sums. */
  lemma RoleSumUpdate(m: RoleMap, g: string, v: set<string>)
    ensures RoleSum(m[g := v]) == RoleSum(m) - GroupSum(GroupOrEmpty(m, g)) + GroupSum(v)
  {
    var m' := m[g := v];
    SumOverRemove(m'.Keys, GroupTerm(m'), g);
    assert m'.Keys - {g} == m.Keys - {g};
    SumOverCongruent(m.Keys - {g}, GroupTerm(m'), GroupTerm(m));
    if g in m {
      SumOverRemove(m.Keys, GroupTerm(m), g);
    } else {
      assert m.Keys - {g} == m.Keys;
      assert GroupOrEmpty(m, g) == {};
    }
  }

  lemma TotalWithRole(d: Dist, r: Role, m: RoleMap)
    ensures Total(WithRole(d, r, m)) == Total(d) - RoleSum(RoleMapOf(d, r)) + RoleSum(m)
  {
  }

  /** Taking one member out of a group of a role subtracts its hash from the total. */
  lemma TotalRemoveMember(d: Dist, r: Role, g: string, x: string)
    requires g in RoleMapOf(d, r) && x in RoleMapOf(d, r)[g]
    ensures var m := RoleMapOf(d, r);
      Total(WithRole(d, r, m[g := m[g] - {x}])) == Total(d) - StringHash(x)
  {
    var m := RoleMapOf(d, r);
    RoleSumUpdate(m, g, m[g] - {x});
    SumOverRemove(m[g], StringHash, x);
    TotalWithRole(d, r, m[g := m[g] - {x}]);
  }

  /** Putting a new member into a group of a role adds its hash to the total. */
  lemma TotalAddMember(d: Dist, r: Role, g: string, x: string)
    requires x !in GroupOrEmpty(RoleMapOf(d, r), g)
    ensures var m := RoleMapOf(d, r);
      Total(WithRole(d, r, m[g := GroupOrEmpty(m, g) + {x}])) == Total(d) + StringHash(x)
  {
    var m := RoleMapOf(d, r);
    RoleSumUpdate(m, g, GroupOrEmpty(m, g) + {x});
    SumOverAdd(GroupOrEmpty(m, g), StringHash, x);
    TotalWithRole(d, r, m[g := GroupOrEmpty(m, g) + {x}]);
  }

  /** Moving an address from one group of one role into another group of any role keeps the
      distribution equal to what it was: equals does not see groups or roles. */
  lemma MoveKeepsEqual(d: Dist, r1: Role, g1: string, r2: Role, g2: string, x: string)
    requires g1 in RoleMapOf(d, r1) && x in RoleMapOf(d, r1)[g1]
    requires var m1 := RoleMapOf(d, r1);
      var d1 := WithRole(d, r1, m1[g1 := m1[g1] - {x}]);
      x !in GroupOrEmpty(RoleMapOf(d1, r2), g2)
    ensures var m1 := RoleMapOf(d, r1);
      var d1 := WithRole(d, r1, m1[g1 := m1[g1] - {x}]);
      var m2 := RoleMapOf(d1, r2);
      Equal(d, WithRole(d1, r2, m2[g2 := GroupOrEmpty(m2, g2) + {x}]))
  {
    var m1 := RoleMapOf(d, r1);
    var d1 := WithRole(d, r1, m1[g1 := m1[g1] - {x}]);
    var m2 := RoleMapOf(d1, r2);
    var d2 := WithRole(d1, r2, m2[g2 := GroupOrEmpty(m2, g2) + {x}]);
    TotalRemoveMember(d, r1, g1, x);
    assert Total(d1) == Total(d) - StringHash(x);
    TotalAddMember(d1, r2, g2, x);
    assert Total(d2) == Total(d1) + StringHash(x);
    SameTotalEqual(d, d2);
  }

  lemma SameTotalEqual(d1: Dist, d2: Dist)
    requires Total(d1) == Total(d2)
    ensures Equal(d1, d2)
  {
  }

  /** equals compares hashes only, so two different distributions can be equal:
      the same address filed as TO in one and as CC in the other. */
  lemma EqualIgnoresRoles(from: Addr, x: string)
    ensures var d1 := Dist(from, map[GROUP_STATIC := {x}], map[], map[]);
      var d2 := Dist(from, map[], map[GROUP_STATIC := {x}], map[]);
      d1 != d2 && Equal(d1, d2)
  {
    var empty: RoleMap := map[];
    assert empty.Keys == {};
    assert RoleSum(empty) == 0;
  }

  // ---------------------------------------------------------------------------
  // The with-groups JSON shape

  /** A JSON value as the decoder sees it: an address bean, or an object from group
      name to the array of its addresses (an array is represented by the set of its
      elements: the encoder writes a hash set, the decoder reads into one). */
  datatype JValue = JAddress(addr: Addr) | JGroups(groups: map<string, set<string>>)

  type JsonDoc = map<string, JValue>

  /** toJSONWithGroups: FROM and TO always, CC and BCC only for a role that has a group. */
  function ToJSONWithGroups(d: Dist): (j: JsonDoc)
    ensures LISTTYPE_FROM in j && j[LISTTYPE_FROM] == JAddress(d.from)
    ensures LISTTYPE_TO in j && j[LISTTYPE_TO] == JGroups(d.to)
    ensures LISTTYPE_CC in j <==> |d.cc| > 0
    ensures LISTTYPE_BCC in j <==> |d.bcc| > 0
    ensures LISTTYPE_CC in j ==> j[LISTTYPE_CC] == JGroups(d.cc)
    ensures LISTTYPE_BCC in j ==> j[LISTTYPE_BCC] == JGroups(d.bcc)
    ensures j.Keys <= {LISTTYPE_FROM, LISTTYPE_TO, LISTTYPE_CC, LISTTYPE_BCC}
  {
    var base := map[LISTTYPE_FROM := JAddress(d.from), LISTTYPE_TO := JGroups(d.to)];
    var withCc := if |d.cc| > 0 then base[LISTTYPE_CC := JGroups(d.cc)] else base;
    if |d.bcc| > 0 then withCc[LISTTYPE_BCC := JGroups(d.bcc)] else withCc
  }

  /** convert2InternetAddressSet as a value: the groups whose array is not empty. */
  function DropEmpty(m: RoleMap): (n: RoleMap)
    ensures n.Keys == set g | g in m && m[g] != {}
    ensures forall g :: g in n ==> n[g] == m[g]
  {
    map g | g in m && m[g] != {} :: m[g]
  }

  /** convert2InternetAddressSet: a fresh map holding a group only once one of its elements is added. */
  method Convert2InternetAddressSet(m: RoleMap) returns (n: RoleMap)
    ensures n == DropEmpty(m)
  {
    n := map[];
    var keys := m.Keys;
    while keys != {}
      invariant keys <= m.Keys
      invariant n == map g | g in m.Keys - keys && m[g] != {} :: m[g]
      decreases keys
    {
      var key :| key in keys;
      if m[key] != {} {
        n := n[key := m[key]];
      }
      keys := keys - {key};
    }
  }

  /** Reads one role's object out of the document: a missing key is a null map, which
      convert2InternetAddressSet dereferences; a value of the wrong shape fails the cast. */
  function RoleFromJSON(j: JsonDoc, key: string): Result<RoleMap, JavaException>
  {
    if key !in j then Err(NullDeref())
    else if !j[key].JGroups? then Err(JavaException("java.lang.ClassCastException", None))
    else Ok(j[key].groups)
  }

  /** The distribution fromJSON constructs from the sender and the three roles it read, or the
      first exception: the arguments are evaluated from left to right. */
  function Assemble(from: Addr, to: Result<RoleMap, JavaException>, cc: Result<RoleMap, JavaException>,
                    bcc: Result<RoleMap, JavaException>): (r: Result<Dist, JavaException>)
    ensures r.Ok? <==> to.Ok? && cc.Ok? && bcc.Ok?
  {
    if to.Err? then Err(to.error)
    else if cc.Err? then Err(cc.error)
    else if bcc.Err? then Err(bcc.error)
    else Ok(Dist(from, DropEmpty(to.value), DropEmpty(cc.value), DropEmpty(bcc.value)))
  }

  /** fromJSON, as written: CC and BCC are read unconditionally. */
  function Decode(j: JsonDoc): (r: Result<Dist, JavaException>)
    ensures r.Ok? ==> LISTTYPE_CC in j && LISTTYPE_BCC in j && LISTTYPE_TO in j
  {
    if LISTTYPE_FROM !in j || !j[LISTTYPE_FROM].JAddress? then Err(NullDeref())
    else Assemble(j[LISTTYPE_FROM].addr, RoleFromJSON(j, LISTTYPE_TO), RoleFromJSON(j, LISTTYPE_CC), RoleFromJSON(j, LISTTYPE_BCC))
  }

  /** fromJSON: builds the distribution through the protected constructor, which copies the maps. */
  method FromJSON(j: JsonDoc) returns (r: Result<Dist, JavaException>)
    ensures r == Decode(j)
  {
    if LISTTYPE_FROM !in j || !j[LISTTYPE_FROM].JAddress? {
      return Err(NullDeref());
    }
    var from := j[LISTTYPE_FROM].addr;
    var to := RoleFromJSON(j, LISTTYPE_TO);
    var cc := RoleFromJSON(j, LISTTYPE_CC);
    var bcc := RoleFromJSON(j, LISTTYPE_BCC);
    if to.Err? { return Err(to.error); }
    if cc.Err? { return Err(cc.error); }
    if bcc.Err? { return Err(bcc.error); }
    var toMap := Convert2InternetAddressSet(to.value);
    var ccMap := Convert2InternetAddressSet(cc.value);
    var bccMap := Convert2InternetAddressSet(bcc.value);
    return Ok(Dist(from, toMap, ccMap, bccMap));
  }

  /** Dropping empty groups does not change a role's hash sum. */
  lemma DropEmptyKeepsSum(m: RoleMap)
    ensures RoleSum(DropEmpty(m)) == RoleSum(m)
  {
    var n := DropEmpty(m);
    forall g | g in m.Keys && g !in n.Keys
      ensures GroupTerm(m)(g) == 0
    {
      assert m[g] == {};
    }
    SumOverDropZeros(m.Keys, n.Keys, GroupTerm(m));
    SumOverCongruent(n.Keys, GroupTerm(n), GroupTerm(m));
  }

  /** A decoded role holds exactly the groups read whose array is not empty, each with the set read. */
  ghost predicate KeepsNonEmptyGroups(decoded: RoleMap, read: RoleMap)
  {
    && (forall g :: g in decoded <==> g in read && read[g] != {})
    && (forall g :: g in decoded ==> decoded[g] == read[g])
  }

  /** Decoding keeps the sender, and in each of TO, CC and BCC drops the groups whose array is
      empty and keeps every other group with its set. */
  lemma DecodeDropsEmptyGroups(j: JsonDoc)
    requires Decode(j).Ok?
    ensures Decode(j).value.from == j[LISTTYPE_FROM].addr
    ensures KeepsNonEmptyGroups(Decode(j).value.to, j[LISTTYPE_TO].groups)
    ensures KeepsNonEmptyGroups(Decode(j).value.cc, j[LISTTYPE_CC].groups)
    ensures KeepsNonEmptyGroups(Decode(j).value.bcc, j[LISTTYPE_BCC].groups)
  {
  }

  /** Decoding the with-groups JSON of a distribution that lacks CC or BCC groups fails:
      the encoder omits the key and the decoder dereferences it. */
  lemma RoundTripFailsWithoutCcOrBcc(d: Dist)
    ensures Decode(ToJSONWithGroups(d)).Ok? <==> |d.cc| > 0 && |d.bcc| > 0
  {
  }

  /** With both CC and BCC present, decoding the with-groups JSON yields the distribution
      without its empty groups, and that is equal to the original. */
  lemma RoundTripWithCcAndBcc(d: Dist)
    requires |d.cc| > 0 && |d.bcc| > 0
    ensures Decode(ToJSONWithGroups(d)) == Ok(Dist(d.from, DropEmpty(d.to), DropEmpty(d.cc), DropEmpty(d.bcc)))
    ensures Equal(Decode(ToJSONWithGroups(d)).value, d)
  {
    var x := Dist(d.from, DropEmpty(d.to), DropEmpty(d.cc), DropEmpty(d.bcc));
    assert Decode(ToJSONWithGroups(d)) == Ok(x);
    DropEmptyKeepsSum(d.to);
    DropEmptyKeepsSum(d.cc);
    DropEmptyKeepsSum(d.bcc);
    assert Total(x) == Total(d);
  }

  /** A role read by a decoder that takes an absent key as a role without groups. */
  function RoleFromJSONOrEmpty(j: JsonDoc, key: string): Result<RoleMap, JavaException>
  {
    if key !in j then Ok(map[]) else RoleFromJSON(j, key)
  }

  /** fromJSON as evidently intended: CC and BCC, which the encoder omits when empty, default to no groups. */
  function DecodeFixed(j: JsonDoc): (r: Result<Dist, JavaException>)
    ensures Decode(j).Ok? ==> r == Decode(j)
  {
    if LISTTYPE_FROM !in j || !j[LISTTYPE_FROM].JAddress? then Err(NullDeref())
    else Assemble(j[LISTTYPE_FROM].addr, RoleFromJSON(j, LISTTYPE_TO),
                  RoleFromJSONOrEmpty(j, LISTTYPE_CC), RoleFromJSONOrEmpty(j, LISTTYPE_BCC))
  }

  /** The intended round trip: every distribution survives encoding and decoding up to equality. */
  lemma RoundTripFixed(d: Dist)
    ensures DecodeFixed(ToJSONWithGroups(d)).Ok?
    ensures Equal(DecodeFixed(ToJSONWithGroups(d)).value, d)
  {
    var j := ToJSONWithGroups(d);
    var cc := RoleFromJSONOrEmpty(j, LISTTYPE_CC);
    var bcc := RoleFromJSONOrEmpty(j, LISTTYPE_BCC);
    assert cc == Ok(d.cc) by {
      if |d.cc| == 0 { assert d.cc == map[]; }
    }
    assert bcc == Ok(d.bcc) by {
      if |d.bcc| == 0 { assert d.bcc == map[]; }
    }
    var x := Dist(d.from, DropEmpty(d.to), DropEmpty(d.cc), DropEmpty(d.bcc));
    assert DecodeFixed(j) == Ok(x);
    DropEmptyKeepsSum(d.to);
    DropEmptyKeepsSum(d.cc);
    DropEmptyKeepsSum(d.bcc);
    assert Total(x) == Total(d);
  }

  // ---------------------------------------------------------------------------
  // getGroupTypes

  /** getGroupTypes as written: it compares the listtype with the literals "LISTTYPE_TO",
      "LISTTYPE_CC" and "LISTTYPE_BCC", not with the constants' values. */
  function GroupTypesAsWritten(d: Dist, listtype: string): Result<set<string>, JavaException>
  {
    if listtype == "LISTTYPE_TO" then Ok(d.to.Keys)
    else if listtype == "LISTTYPE_CC" then Ok(d.cc.Keys)
    else if listtype == "LISTTYPE_BCC" then Ok(d.bcc.Keys)
    else Err(JavaException(NPE_CLASS, Some("Not a valid listtype")))
  }

  /** getGroupTypes as evidently intended: keyed by LISTTYPE_TO, LISTTYPE_CC, LISTTYPE_BCC. */
  function GroupTypes(d: Dist, listtype: string): (r: Result<set<string>, JavaException>)
    ensures r.Ok? <==> listtype in {LISTTYPE_TO, LISTTYPE_CC, LISTTYPE_BCC}
    ensures listtype == LISTTYPE_TO ==> r == Ok(d.to.Keys)
    ensures listtype == LISTTYPE_CC ==> r == Ok(d.cc.Keys)
    ensures listtype == LISTTYPE_BCC ==> r == Ok(d.bcc.Keys)
  {
    if listtype == LISTTYPE_TO then Ok(d.to.Keys)
    else if listtype == LISTTYPE_CC then Ok(d.cc.Keys)
    else if listtype == LISTTYPE_BCC then Ok(d.bcc.Keys)
    else Err(JavaException(NPE_CLASS, Some("Not a valid listtype")))
  }

  /** The list types every other method accepts are refused by getGroupTypes as written. */
  lemma GroupTypesRejectsListTypes(d: Dist)
    ensures GroupTypesAsWritten(d, LISTTYPE_TO).Err? && GroupTypes(d, LISTTYPE_TO) == Ok(d.to.Keys)
    ensures GroupTypesAsWritten(d, LISTTYPE_CC).Err? && GroupTypes(d, LISTTYPE_CC) == Ok(d.cc.Keys)
    ensures GroupTypesAsWritten(d, LISTTYPE_BCC).Err? && GroupTypes(d, LISTTYPE_BCC) == Ok(d.bcc.Keys)
  {
  }

  // ---------------------------------------------------------------------------
  // The mutable distribution

  /** An address parser (InternetAddress.parseHeader): a header string to its addresses, or the AddressException. */
  type Parser = string -> Result<seq<Addr>, JavaException>

  function ListRole(listtype: string): Option<Role>
  {
    if listtype == LISTTYPE_TO then Some(TO)
    else if listtype == LISTTYPE_CC then Some(CC)
    else if listtype == LISTTYPE_BCC then Some(BCC)
    else None
  }

  class EmailDistribution {
    var from: Addr
    var toMap: RoleMap
    var ccMap: RoleMap
    var bccMap: RoleMap
    /** last_changed, as a version counter: bumped once per effective change. */
    var lastChanged: nat

    function Value(): Dist
      reads this
    {
      Dist(from, toMap, ccMap, bccMap)
    }

    /** The protected constructor used by fromJSON and clone. */
    constructor Of(d: Dist)
      ensures Value() == d && lastChanged == 0
    {
      from, toMap, ccMap, bccMap := d.from, d.to, d.cc, d.bcc;
      lastChanged := 0;
    }

    /** The constructor from a sender and an already parsed TO array. */
    constructor (from: Addr, to: seq<Addr>)
      ensures Value() == Dist(from, FileAll(map[], to), map[], map[]) && lastChanged == 0
    {
      this.from := from;
      var m, _ := Add2DistByAddress(map[], to);
      toMap := m;
      ccMap, bccMap := map[], map[];
      lastChanged := 0;
    }

    /** clone(): a new distribution with the same sender and roles; it is equal to this one. */
    method Clone() returns (c: EmailDistribution)
      ensures fresh(c) && c.Value() == Value() && Equal(c.Value(), Value())
    {
      c := new EmailDistribution.Of(Value());
    }

    /** remove(listtype, group, address): takes the address out of the named group of the named
        role. An unknown listtype throws, as does a group the role does not have. */
    method Remove(listtype: string, group: string, address: string) returns (r: Result<bool, JavaException>)
      modifies this
      ensures ListRole(listtype).None? ==>
        r == Err(JavaException(NPE_CLASS, Some("Not a valid listtype"))) && Value() == old(Value()) && lastChanged == old(lastChanged)
      ensures ListRole(listtype).Some? ==>
        var role := ListRole(listtype).value; var m := RoleMapOf(old(Value()), role);
        if group !in m then r == Err(NullDeref()) && Value() == old(Value()) && lastChanged == old(lastChanged)
        else && r == Ok(address in m[group])
             && Value() == WithRole(old(Value()), role, m[group := m[group] - {address}])
             && lastChanged == old(lastChanged) + (if address in m[group] then 1 else 0)
    {
      var role := ListRole(listtype);
      if role.None? {
        return Err(JavaException(NPE_CLASS, Some("Not a valid listtype")));
      }
      var m := RoleMapOf(Value(), role.value);
      if group !in m {
        return Err(NullDeref());
      }
      if address in m[group] {
        var m' := m[group := m[group] - {address}];
        match role.value {
          case TO => toMap := m';
          case CC => ccMap := m';
          case BCC => bccMap := m';
        }
        lastChanged := lastChanged + 1;
        return Ok(true);
      }
      assert m[group] - {address} == m[group];
      assert m[group := m[group] - {address}] == m;
      return Ok(false);
    }

    /** remove(listtype, address): remove from the "staticaddr" group, with the same failures
        and the same last_changed rule as remove(listtype, group, address). */
    method RemoveStatic(listtype: string, address: string) returns (r: Result<bool, JavaException>)
      modifies this
      ensures ListRole(listtype).None? ==>
        r == Err(JavaException(NPE_CLASS, Some("Not a valid listtype"))) && Value() == old(Value()) && lastChanged == old(lastChanged)
      ensures ListRole(listtype).Some? ==>
        var role := ListRole(listtype).value; var m := RoleMapOf(old(Value()), role);
        if GROUP_STATIC !in m then r == Err(NullDeref()) && Value() == old(Value()) && lastChanged == old(lastChanged)
        else && r == Ok(address in m[GROUP_STATIC])
             && Value() == WithRole(old(Value()), role, m[GROUP_STATIC := m[GROUP_STATIC] - {address}])
             && lastChanged == old(lastChanged) + (if address in m[GROUP_STATIC] then 1 else 0)
    {
      r := Remove(listtype, GROUP_STATIC, address);
    }

    /** setFROM: a group is refused; the sender and last_changed change only for a different address. */
    method SetFROM(f: Addr) returns (r: Result<(), JavaException>)
      modifies this
      ensures f.Group? ==> r.Err? && Value() == old(Value()) && lastChanged == old(lastChanged)
      ensures f.Single? ==> r.Ok? && Value() == old(Value()).(from := f)
      ensures f.Single? ==> lastChanged == old(lastChanged) + (if f != old(from) then 1 else 0)
    {
      if f.Group? {
        return Err(JavaException("javax.mail.internet.AddressException",
                                 Some("From may contain only a single email address, not a group")));
      }
      if f != from {
        from := f;
        lastChanged := lastChanged + 1;
      }
      return Ok(());
    }

    /** addTO: parses the header and files its addresses; no check for null or empty text. */
    method AddTO(to: Option<string>, parse: Parser) returns (r: Result<bool, JavaException>)
      modifies this
      ensures to.None? ==> r == Err(NullDeref())
      ensures r.Err? ==> Value() == old(Value()) && lastChanged == old(lastChanged)
      ensures to.Some? ==>
        if parse(to.value).Err? then r == Err(parse(to.value).error)
        else var addrs := parse(to.value).value;
          && r.Ok?
          && Value() == old(Value()).(to := FileAll(old(toMap), addrs))
          && (r.value <==> |addrs| > 0 && FilingChanges(FileAll(old(toMap), addrs[..|addrs| - 1]), addrs[|addrs| - 1]))
          && lastChanged == old(lastChanged) + (if r.value then 1 else 0)
    {
      if to.None? {
        return Err(NullDeref());
      }
      var parsed := parse(to.value);
      if parsed.Err? {
        return Err(parsed.error);
      }
      var m, changed := Add2DistByAddress(toMap, parsed.value);
      toMap := m;
      assert Value() == old(Value()).(to := m);
      if changed {
        lastChanged := lastChanged + 1;
      }
      return Ok(changed);
    }

    /** addCC: null or empty text returns false and changes nothing; otherwise as addTO. */
    method AddCC(cc: Option<string>, parse: Parser) returns (r: Result<bool, JavaException>)
      modifies this
      ensures cc.None? || cc.value == "" ==> r == Ok(false) && Value() == old(Value()) && lastChanged == old(lastChanged)
      ensures r.Err? ==> Value() == old(Value()) && lastChanged == old(lastChanged)
      ensures cc.Some? && cc.value != "" ==>
        if parse(cc.value).Err? then r == Err(parse(cc.value).error)
        else var addrs := parse(cc.value).value;
          && r.Ok?
          && Value() == old(Value()).(cc := FileAll(old(ccMap), addrs))
          && (r.value <==> |addrs| > 0 && FilingChanges(FileAll(old(ccMap), addrs[..|addrs| - 1]), addrs[|addrs| - 1]))
          && lastChanged == old(lastChanged) + (if r.value then 1 else 0)
    {
      if cc.None? || cc.value == "" {
        return Ok(false);
      }
      var parsed := parse(cc.value);
      if parsed.Err? {
        return Err(parsed.error);
      }
      var m, changed := Add2DistByAddress(ccMap, parsed.value);
      ccMap := m;
      assert Value() == old(Value()).(cc := m);
      if changed {
        lastChanged := lastChanged + 1;
      }
      return Ok(changed);
    }

    /** addBCC: null or empty text returns false and changes nothing; otherwise as addTO. */
    method AddBCC(bcc: Option<string>, parse: Parser) returns (r: Result<bool, JavaException>)
      modifies this
      ensures bcc.None? || bcc.value == "" ==> r == Ok(false) && Value() == old(Value()) && lastChanged == old(lastChanged)
      ensures r.Err? ==> Value() == old(Value()) && lastChanged == old(lastChanged)
      ensures bcc.Some? && bcc.value != "" ==>
        if parse(bcc.value).Err? then r == Err(parse(bcc.value).error)
        else var addrs := parse(bcc.value).value;
          && r.Ok?
          && Value() == old(Value()).(bcc := FileAll(old(bccMap), addrs))
          && (r.value <==> |addrs| > 0 && FilingChanges(FileAll(old(bccMap), addrs[..|addrs| - 1]), addrs[|addrs| - 1]))
          && lastChanged == old(lastChanged) + (if r.value then 1 else 0)
    {
      if bcc.None? || bcc.value == "" {
        return Ok(false);
      }
      var parsed := parse(bcc.value);
      if parsed.Err? {
        return Err(parsed.error);
      }
      var m, changed := Add2DistByAddress(bccMap, parsed.value);
      bccMap := m;
      assert Value() == old(Value()).(bcc := m);
      if changed {
        lastChanged := lastChanged + 1;
      }
      return Ok(changed);
    }

    /** getTO / getCC / getBCC: null for a role without groups, else the union of its groups. */
    method GetRecipients(role: Role) returns (r: Option<seq<string>>)
      ensures r.None? <==> |RoleMapOf(Value(), role)| == 0
      ensures r.Some? ==> NoDup(r.value) && forall x :: x in r.value <==> x in Flat(RoleMapOf(Value(), role))
    {
      r := GetFlatDist(RoleMapOf(Value(), role));
    }

    /** getGroupTypes, as written (see GroupTypesAsWritten). */
    method GetGroupTypes(listtype: string) returns (r: Result<set<string>, JavaException>)
      ensures r == GroupTypesAsWritten(Value(), listtype)
      ensures listtype == LISTTYPE_TO ==> r.Err?
    {
      r := GroupTypesAsWritten(Value(), listtype);
    }

    /** hashCode(): the loops over the three roles' groups, accumulating in int arithmetic. */
    method HashCode() returns (h: int)
      ensures h == DistHash(Value())
    {
      h := RolesHash(StringHash(AddressText(from)), toMap, ccMap, bccMap);
    }

    /** equals(): false for null, otherwise a comparison of the two hashes. */
    method Equals(other: EmailDistribution?) returns (b: bool)
      ensures b <==> other != null && Equal(other.Value(), Value())
    {
      if other == null {
        return false;
      }
      var h1 := other.HashCode();
      var h2 := HashCode();
      b := h1 == h2;
    }
  }

  /** Adds the hashes of one group's members to h, one by one, in int arithmetic. */
  method AddGroupHash(h: int, s: set<string>) returns (h': int)
    requires IsInt32(h)
    ensures h' == Int32(h + GroupSum(s))
  {
    ghost var target := Int32(h + GroupSum(s));
    ghost var left := GroupSum(s);
    h' := h;
    var rest := s;
    while rest != {}
      invariant IsInt32(h')
      invariant left == GroupSum(rest)
      invariant Int32(h' + left) == target
      decreases rest
    {
      var next, x, left' := AddOneMember(h', rest, left);
      h' := next;
      rest := rest - {x};
      left := left';
    }
    assert left == 0;
  }

  /** One turn of the group loop: some member is taken and its hash added, in int arithmetic. */
  method AddOneMember(h: int, rest: set<string>, ghost left: int) returns (next: int, x: string, ghost left': int)
    requires IsInt32(h) && rest != {} && left == GroupSum(rest)
    ensures x in rest && IsInt32(next)
    ensures left' == GroupSum(rest - {x}) && Int32(next + left') == Int32(h + left)
  {
    x :| x in rest;
    var v := StringHash(x);
    next := Int32(h + v);
    SumOverRemove(rest, StringHash, x);
    left' := GroupSum(rest - {x});
    WrapStep(h, v, next, left', left);
  }

  /** Adding v wrapped, then the rest, wraps to the same int as adding v + rest at once. */
  lemma WrapStep(h: int, v: int, a: int, rest: int, total: int)
    requires total == v + rest && a == Int32(h + v)
    ensures Int32(a + rest) == Int32(h + total)
  {
    Int32AddWrapped(h + v, rest);
  }

  /** Adds the hashes of every member of every group of a role to h. */
  method AddRoleHash(h: int, m: RoleMap) returns (h': int)
    requires IsInt32(h)
    ensures IsInt32(h') && h' == Int32(h + RoleSum(m))
  {
    ghost var target := Int32(h + RoleSum(m));
    ghost var left := RoleSum(m);
    h' := h;
    var groups := m.Keys;
    while groups != {}
      invariant groups <= m.Keys
      invariant IsInt32(h')
      invariant left == SumOver(groups, GroupTerm(m))
      invariant Int32(h' + left) == target
      decreases groups
    {
      var next, g, left' := AddOneGroup(h', m, groups, left);
      h' := next;
      groups := groups - {g};
      left := left';
    }
    assert left == 0;
  }

  /** One turn of the role loop: some group is taken and its members' hashes are added. */
  method AddOneGroup(h: int, m: RoleMap, groups: set<string>, ghost left: int)
    returns (next: int, g: string, ghost left': int)
    requires IsInt32(h) && groups != {} && groups <= m.Keys && left == SumOver(groups, GroupTerm(m))
    ensures g in groups && IsInt32(next)
    ensures left' == SumOver(groups - {g}, GroupTerm(m)) && Int32(next + left') == Int32(h + left)
  {
    g :| g in groups;
    next := AddGroupHash(h, m[g]);
    left' := SumOver(groups - {g}, GroupTerm(m));
    RoleHashStep(m, groups, g);
    WrapStep(h, GroupSum(m[g]), next, left', left);
  }

  /** One group of the role loop: the role's sum is that group's members' sum plus the other groups'. */
  lemma RoleHashStep(m: RoleMap, groups: set<string>, g: string)
    requires g in groups && groups <= m.Keys
    ensures SumOver(groups, GroupTerm(m)) == GroupSum(m[g]) + SumOver(groups - {g}, GroupTerm(m))
  {
    SumOverRemove(groups, GroupTerm(m), g);
    assert GroupTerm(m)(g) == GroupSum(m[g]);
  }

  /** hashCode's three role loops, run one after another from the sender's hash f, give the
      wrapped sum of f and the three roles' sums, which is DistHash. */
  method RolesHash(f: int, to: RoleMap, cc: RoleMap, bcc: RoleMap) returns (h: int)
    requires IsInt32(f)
    ensures h == Int32(f + RoleSum(to) + RoleSum(cc) + RoleSum(bcc))
  {
    ghost var t, c, b := RoleSum(to), RoleSum(cc), RoleSum(bcc);
    var h1 := AddRoleHash(f, to);
    var h2 := AddRoleHash(h1, cc);
    h := AddRoleHash(h2, bcc);
    HashChain(f, t, c, b, f + t + c + b, h1, h2, h);
  }

  /** The three role loops accumulate into one int: wrapping after each equals wrapping the total. */
  lemma HashChain(f: int, t: int, c: int, b: int, total: int, h1: int, h2: int, h3: int)
    requires total == f + t + c + b
    requires h1 == Int32(f + t) && h2 == Int32(h1 + c) && h3 == Int32(h2 + b)
    ensures h3 == Int32(total)
  {
    Int32AddWrapped(f + t, c);
    Int32AddWrapped(f + t + c, b);
  }
}
