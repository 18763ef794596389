/** internal/ns: who may do what (ACL) and which namespaces exist (Registry). */
module Access {
  import opened Base
  import opened Order
  import opened Meta
  import opened Validate

  // ----- Roles -----

  datatype Role = NoRole | Reader | Writer | Admin {
    function Rank(): int {
      match this
      case NoRole => 0
      case Reader => 1
      case Writer => 2
      case Admin => 3
    }

    function Name(): Bytes {
      match this
      case NoRole => Lit("none")
      case Reader => Lit("reader")
      case Writer => Lit("writer")
      case Admin => Lit("admin")
    }

    predicate Covers(need: Role) {
      need == NoRole || Rank() >= need.Rank()
    }
  }

  function ParseRole(s: Bytes): Result<Role> {
    if s == [] || s == Lit("none") then Ok(NoRole)
    else if s == Lit("reader") || s == Lit("read") then Ok(Reader)
    else if s == Lit("writer") || s == Lit("write") then Ok(Writer)
    else if s == Lit("admin") then Ok(Admin)
    else Err(Error(InvalidArg, Lit("role=") + s))
  }

  lemma {:induction false} ParseRoleInvertsName(r: Role)
    ensures ParseRole(r.Name()) == Ok(r)
  {
    assert Lit("none")[0] == 110 && Lit("reader")[0] == 114 && Lit("read")[0] == 114;
    assert Lit("writer")[0] == 119 && Lit("write")[0] == 119 && Lit("admin")[0] == 97;
  }

  // ----- acl.go -----

  datatype GrantKey = GrantKey(ns: Bytes, subject: Bytes)
  type Grants = map<GrantKey, Role>

  datatype Acl = Acl(grants: Grants, owners: map<Bytes, Bytes>) {
    /** Owners are administrators; the empty subject is nobody. */
    function RoleOf(ns: Bytes, subject: Bytes): Role {
      if subject == [] then NoRole
      else if ns in owners && owners[ns] == subject then Admin
      else if GrantKey(ns, subject) in grants then grants[GrantKey(ns, subject)]
      else NoRole
    }

    function CheckError(ns: Bytes, subject: Bytes, need: Role): Option<Error> {
      if RoleOf(ns, subject).Covers(need) then None
      else Some(Error(Forbidden, ns + Lit("/") + subject + Lit(" need=") + need.Name()))
    }

    function Removed(ns: Bytes): Acl {
      Acl(map k | k in grants && k.ns != ns :: grants[k], owners - {ns})
    }

    function GrantError(ns: Bytes, subject: Bytes): Option<Error> {
      if !IsNSID(ns) then Some(Error(InvalidID, ns))
      else if !IsActor(subject) || subject == [] then Some(Error(InvalidArg, Lit("subject")))
      else None
    }

    function Granted(ns: Bytes, subject: Bytes, role: Role): Acl {
      if GrantError(ns, subject).Some? then this
      else if role == NoRole then Acl(grants - {GrantKey(ns, subject)}, owners)
      else Acl(grants[GrantKey(ns, subject) := role], owners)
    }
  }

  function SubjectsOf(g: Grants, ns: Bytes): (m: map<Bytes, Bytes>)
    ensures forall sub :: sub in m <==> GrantKey(ns, sub) in g
    ensures forall sub :: sub in m ==> m[sub] == g[GrantKey(ns, sub)].Name()
  {
    var subjects := set k | k in g && k.ns == ns :: k.subject;
    assert forall sub :: GrantKey(ns, sub) in g ==> GrantKey(ns, sub).subject in subjects;
    map sub | sub in subjects :: g[GrantKey(ns, sub)].Name()
  }

  predicate HasGrants(g: Grants, ns: Bytes) {
    exists k :: k in g && k.ns == ns
  }

  function Exported(g: Grants): (m: map<Bytes, map<Bytes, Bytes>>)
    ensures forall ns :: ns in m <==> HasGrants(g, ns)
    ensures forall ns :: ns in m ==> m[ns] == SubjectsOf(g, ns)
  {
    var spaces := set k | k in g :: k.ns;
    map ns | ns in spaces :: SubjectsOf(g, ns)
  }

  /** What one exported role means to Import: unknown names and "none" are skipped. */
  predicate Grantable(name: Bytes) {
    ParseRole(name).Ok? && ParseRole(name).value != NoRole
  }

  predicate ImportsGrant(m: map<Bytes, map<Bytes, Bytes>>, k: GrantKey) {
    k.ns in m && k.subject in m[k.ns] && Grantable(m[k.ns][k.subject])
  }

  function Imported(m: map<Bytes, map<Bytes, Bytes>>): (g: Grants)
    ensures forall k :: ImportsGrant(m, k) ==> k in g
    ensures forall k :: k in g ==> ImportsGrant(m, k) && g[k] == ParseRole(m[k.ns][k.subject]).value
  {
    var keys := set ns, sub | ns in m && sub in m[ns] :: GrantKey(ns, sub);
    assert forall k :: ImportsGrant(m, k) ==> GrantKey(k.ns, k.subject) in keys;
    map k | k in keys && ImportsGrant(m, k) :: ParseRole(m[k.ns][k.subject]).value
  }

  /** Exporting and importing grants loses nothing. */
  lemma {:induction false} ImportInvertsExport(g: Grants)
    requires forall k :: k in g ==> g[k] != NoRole
    ensures Imported(Exported(g)) == g
  {
    hide Imported, Exported, SubjectsOf, ParseRole;
    var m := Exported(g);
    forall k
      ensures ImportsGrant(m, k) <==> k in g
      ensures k in g ==> m[k.ns][k.subject] == g[k].Name() && ParseRole(g[k].Name()) == Ok(g[k])
    {
      assert k == GrantKey(k.ns, k.subject);
      if k in g {
        ParseRoleInvertsName(g[k]);
      }
    }
  }

  class ACL {
    var grants: Grants
    var owners: map<Bytes, Bytes>

    function State(): Acl
      reads this
    {
      Acl(grants, owners)
    }

    constructor ()
      ensures State() == Acl(map[], map[])
    {
      grants, owners := map[], map[];
    }

    method SetOwner(ns: Bytes, owner: Bytes)
      modifies this
      ensures State() == old(State()).(owners := old(owners)[ns := owner])
    {
      owners := owners[ns := owner];
    }

    method RemoveNS(ns: Bytes)
      modifies this
      ensures State() == old(State()).Removed(ns)
    {
      owners := owners - {ns};
      var left := grants.Keys;
      while left != {}
        invariant left <= old(grants).Keys && owners == old(owners) - {ns}
        invariant grants == map k | k in old(grants) && (k in left || k.ns != ns) :: old(grants)[k]
      {
        var k :| k in left;
        left := left - {k};
        if k.ns == ns {
          grants := grants - {k};
        }
      }
    }

    method Grant(ns: Bytes, subject: Bytes, role: Role) returns (err: Option<Error>)
      modifies this
      ensures err == old(State()).GrantError(ns, subject)
      ensures State() == old(State()).Granted(ns, subject, role)
    {
      err := ValidNSID(ns);
      if err.Some? {
        return;
      }
      if !IsActor(subject) || subject == [] {
        return Some(Error(InvalidArg, Lit("subject")));
      }
      if role == NoRole {
        grants := grants - {GrantKey(ns, subject)};
      } else {
        grants := grants[GrantKey(ns, subject) := role];
      }
    }

    method Check(ns: Bytes, subject: Bytes, need: Role) returns (err: Option<Error>)
      ensures err == State().CheckError(ns, subject, need)
    {
      if need == NoRole {
        return None;
      }
      var got := State().RoleOf(ns, subject);
      if got.Covers(need) {
        return None;
      }
      err := Some(Error(Forbidden, ns + Lit("/") + subject + Lit(" need=") + need.Name()));
    }

    method Export() returns (out: map<Bytes, map<Bytes, Bytes>>)
      ensures out == Exported(grants)
    {
      out := map[];
      ghost var seen: Grants := map[];
      var left := grants.Keys;
      while left != {}
        invariant left <= grants.Keys && seen == grants - left && out == Exported(seen)
      {
        var k :| k in left;
        ExportOneMore(seen, k, grants[k]);
        var m := if k.ns in out then out[k.ns] else map[];
        m := m[k.subject := grants[k].Name()];
        out := out[k.ns := m];
        assert seen[k := grants[k]] == grants - (left - {k});
        left := left - {k};
        seen := seen[k := grants[k]];
      }
      assert seen == grants;
    }

    method Import(m: map<Bytes, map<Bytes, Bytes>>)
      modifies this
      ensures grants == Imported(m) && owners == old(owners)
    {
      hide Imported, ParseRole;
      grants := map[];
      ghost var seen: map<Bytes, map<Bytes, Bytes>> := map[];
      var left := m.Keys;
      while left != {}
        invariant left <= m.Keys && owners == old(owners)
        invariant seen == m - left && grants == Imported(seen)
      {
        var ns :| ns in left;
        var subs := m[ns];
        ghost var seenSubs: map<Bytes, Bytes> := map[];
        var leftSubs := subs.Keys;
        ImportNothing(seen, ns);
        while leftSubs != {}
          invariant leftSubs <= subs.Keys && owners == old(owners)
          invariant seenSubs == subs - leftSubs && grants == Imported(seen[ns := seenSubs])
        {
          var sub :| sub in leftSubs;
          ImportOneMore(seen, ns, seenSubs, sub, subs[sub]);
          if Grantable(subs[sub]) {
            grants := grants[GrantKey(ns, sub) := ParseRole(subs[sub]).value];
          }
          assert seenSubs[sub := subs[sub]] == subs - (leftSubs - {sub});
          leftSubs := leftSubs - {sub};
          seenSubs := seenSubs[sub := subs[sub]];
        }
        assert seenSubs == subs;
        assert seen[ns := subs] == m - (left - {ns});
        left := left - {ns};
        seen := seen[ns := subs];
      }
      assert seen == m;
    }
  }

  lemma {:induction false} SubjectsOneMore(g: Grants, k: GrantKey, r: Role, ns: Bytes)
    requires k !in g
    ensures SubjectsOf(g[k := r], ns) ==
            if ns == k.ns then SubjectsOf(g, ns)[k.subject := r.Name()] else SubjectsOf(g, ns)
  {
    hide SubjectsOf;
    assert k == GrantKey(k.ns, k.subject);
  }

  lemma {:induction false} HasGrantsOneMore(g: Grants, k: GrantKey, r: Role, ns: Bytes)
    ensures HasGrants(g[k := r], ns) <==> ns == k.ns || HasGrants(g, ns)
  {
    assert k in g[k := r];
    if HasGrants(g, ns) {
      var x :| x in g && x.ns == ns;
      assert x in g[k := r];
    }
  }

  lemma {:induction false} ExportOneMore(g: Grants, k: GrantKey, r: Role)
    requires k !in g
    ensures var subs := if k.ns in Exported(g) then Exported(g)[k.ns] else map[];
            Exported(g[k := r]) == Exported(g)[k.ns := subs[k.subject := r.Name()]]
  {
    hide Exported, SubjectsOf, HasGrants;
    forall ns
      ensures SubjectsOf(g[k := r], ns) ==
              if ns == k.ns then SubjectsOf(g, ns)[k.subject := r.Name()] else SubjectsOf(g, ns)
      ensures HasGrants(g[k := r], ns) <==> ns == k.ns || HasGrants(g, ns)
    {
      SubjectsOneMore(g, k, r, ns);
      HasGrantsOneMore(g, k, r, ns);
    }
    if !HasGrants(g, k.ns) {
      NoGrantsNoSubjects(g, k.ns);
    }
  }

  lemma {:induction false} NoGrantsNoSubjects(g: Grants, ns: Bytes)
    requires !HasGrants(g, ns)
    ensures SubjectsOf(g, ns) == map[]
  {
    assert forall sub :: GrantKey(ns, sub) in g ==> GrantKey(ns, sub).ns == ns;
  }

  lemma {:induction false} ImportNothing(m: map<Bytes, map<Bytes, Bytes>>, ns: Bytes)
    requires ns !in m
    ensures Imported(m[ns := map[]]) == Imported(m)
  {
    hide Imported;
    assert forall k :: ImportsGrant(m[ns := map[]], k) <==> ImportsGrant(m, k);
  }

  lemma {:induction false} ImportOneMore(
      m: map<Bytes, map<Bytes, Bytes>>, ns: Bytes, subs: map<Bytes, Bytes>, sub: Bytes, name: Bytes)
    requires ns !in m && sub !in subs
    ensures Imported(m[ns := subs[sub := name]]) ==
            if Grantable(name) then Imported(m[ns := subs])[GrantKey(ns, sub) := ParseRole(name).value]
            else Imported(m[ns := subs])
  {
    hide Imported, ParseRole;
    var before, after := m[ns := subs], m[ns := subs[sub := name]];
    forall k
      ensures ImportsGrant(after, k) <==> ImportsGrant(before, k) || (k == GrantKey(ns, sub) && Grantable(name))
    {
      assert k == GrantKey(k.ns, k.subject);
    }
  }

  // ----- registry.go -----

  const DEFAULT_MAX_KEYS := 1024
  const DEFAULT_MAX_BYTES := 33554432

  /** Why Create refuses, before looking whether the namespace exists. */
  function SpecError(id: Bytes, owner: Bytes, maxKeys: int, maxBytes: int): Option<Error> {
    if !IsNSID(id) then Some(Error(InvalidID, id))
    else if !IsOwner(owner) then Some(Error(InvalidArg, Lit("owner")))
    else if maxKeys < 0 || maxBytes < 0 then Some(Error(InvalidArg, Lit("quota")))
    else None
  }

  function NewNamespace(id: Bytes, owner: Bytes, maxKeys: int, maxBytes: int, now: int): Namespace {
    Namespace(id, owner, now, if maxKeys == 0 then DEFAULT_MAX_KEYS else maxKeys,
              if maxBytes == 0 then DEFAULT_MAX_BYTES else maxBytes)
  }

  function CreateSpec(
      items: map<Bytes, Namespace>, id: Bytes, owner: Bytes, maxKeys: int, maxBytes: int, now: int): Result<Namespace>
  {
    if SpecError(id, owner, maxKeys, maxBytes).Some? then Err(SpecError(id, owner, maxKeys, maxBytes).value)
    else if id in items then Err(Error(AlreadyExists, id))
    else Ok(NewNamespace(id, owner, maxKeys, maxBytes, now))
  }

  function Registered(ns: seq<Namespace>): map<Bytes, Namespace> {
    if ns == [] then map[]
    else Registered(ns[..|ns| - 1])[ns[|ns| - 1].id := ns[|ns| - 1]]
  }

  /** ReplaceAll sets the owners it is given and forgets none. */
  function WithOwners(owners: map<Bytes, Bytes>, ns: seq<Namespace>): map<Bytes, Bytes> {
    if ns == [] then owners
    else WithOwners(owners, ns[..|ns| - 1])[ns[|ns| - 1].id := ns[|ns| - 1].owner]
  }

  /** Of several namespaces with the same id the last one counts, for the registry and for the owners. */
  lemma {:induction false} LastNamespaceCounts(owners: map<Bytes, Bytes>, ns: seq<Namespace>, i: nat)
    requires i < |ns| && forall j :: i < j < |ns| ==> ns[j].id != ns[i].id
    ensures ns[i].id in Registered(ns) && Registered(ns)[ns[i].id] == ns[i]
    ensures ns[i].id in WithOwners(owners, ns) && WithOwners(owners, ns)[ns[i].id] == ns[i].owner
  {
    if i < |ns| - 1 {
      LastNamespaceCounts(owners, ns[..|ns| - 1], i);
    }
  }

  /** Owners that are not listed stay. */
  lemma {:induction false} UnlistedOwnersStay(owners: map<Bytes, Bytes>, ns: seq<Namespace>, id: Bytes)
    requires forall j :: 0 <= j < |ns| ==> ns[j].id != id
    ensures id !in Registered(ns)
    ensures id in WithOwners(owners, ns) <==> id in owners
    ensures id in owners ==> WithOwners(owners, ns)[id] == owners[id]
  {
    if ns != [] {
      UnlistedOwnersStay(owners, ns[..|ns| - 1], id);
    }
  }

  predicate IDAtMost(a: Namespace, b: Namespace) {
    AtMost(a.id, b.id)
  }

  /** ns holds the namespaces, each once. */
  ghost predicate CollectsNamespaces(ns: seq<Namespace>, items: map<Bytes, Namespace>) {
    && |ns| == |items|
    && (forall id :: id in items ==> items[id] in ns)
    && (forall n :: n in ns ==> exists id :: id in items && items[id] == n)
  }

  /** ... in the order of their ids. */
  ghost predicate ListsNamespaces(ns: seq<Namespace>, items: map<Bytes, Namespace>) {
    CollectsNamespaces(ns, items) && SortedBy(IDAtMost, ns)
  }

  /** Every namespace is registered under its own id. */
  ghost predicate Keyed(items: map<Bytes, Namespace>) {
    forall id :: id in items ==> items[id].id == id
  }

  class Registry {
    var items: map<Bytes, Namespace>
    const acl: ACL

    constructor (acl: ACL)
      ensures items == map[] && this.acl == acl
    {
      items := map[];
      this.acl := acl;
    }

    method Create(id: Bytes, owner: Bytes, maxKeys: int, maxBytes: int, now: int) returns (r: Result<Namespace>)
      modifies this, acl
      ensures r == CreateSpec(old(items), id, owner, maxKeys, maxBytes, now)
      ensures items == if r.Ok? then old(items)[id := r.value] else old(items)
      ensures Keyed(old(items)) ==> Keyed(items)
      ensures acl.State() == if r.Ok? then old(acl.State()).(owners := old(acl.owners)[id := owner]) else old(acl.State())
    {
      var err := ValidNSID(id);
      if err.Some? {
        return Err(err.value);
      }
      if !IsOwner(owner) {
        return Err(Error(InvalidArg, Lit("owner")));
      }
      if maxKeys < 0 || maxBytes < 0 {
        return Err(Error(InvalidArg, Lit("quota")));
      }
      var keys, bytes := maxKeys, maxBytes;
      if keys == 0 {
        keys := DEFAULT_MAX_KEYS;
      }
      if bytes == 0 {
        bytes := DEFAULT_MAX_BYTES;
      }
      var n := Namespace(id, owner, now, keys, bytes);
      if id in items {
        return Err(Error(AlreadyExists, id));
      }
      items := items[id := n];
      acl.SetOwner(id, owner);
      r := Ok(n);
    }

    method Get(id: Bytes) returns (r: Result<Namespace>)
      ensures r == if id in items then Ok(items[id]) else Err(Error(NotFound, id))
    {
      r := if id in items then Ok(items[id]) else Err(Error(NotFound, id));
    }

    method Delete(id: Bytes) returns (r: Result<Namespace>)
      modifies this, acl
      ensures r == if id in old(items) then Ok(old(items)[id]) else Err(Error(NotFound, id))
      ensures items == old(items) - {id}
      ensures Keyed(old(items)) ==> Keyed(items)
      ensures acl.State() == if r.Ok? then old(acl.State()).Removed(id) else old(acl.State())
    {
      if id !in items {
        return Err(Error(NotFound, id));
      }
      r := Ok(items[id]);
      items := items - {id};
      acl.RemoveNS(id);
    }

    method List() returns (out: seq<Namespace>)
      ensures ListsNamespaces(out, items)
    {
      hide CollectsNamespaces, ListsNamespaces, Sort;
      NoneCollected();
      out := [];
      ghost var seen: map<Bytes, Namespace> := map[];
      var left := items.Keys;
      while left != {}
        invariant left <= items.Keys && seen == items - left
        invariant CollectsNamespaces(out, seen)
      {
        var id :| id in left;
        CollectNamespace(out, seen, id, items[id]);
        assert seen[id := items[id]] == items - (left - {id});
        out := out + [items[id]];
        left := left - {id};
        seen := seen[id := items[id]];
      }
      assert seen == items;
      SortNamespaces(out, items);
      out := Sort(IDAtMost, out);
    }

    method ReplaceAll(ns: seq<Namespace>)
      modifies this, acl
      ensures items == Registered(ns) && Keyed(items)
      ensures acl.State() == old(acl.State()).(owners := WithOwners(old(acl.owners), ns))
    {
      items := map[];
      for i := 0 to |ns|
        invariant items == Registered(ns[..i])
        invariant acl.State() == old(acl.State()).(owners := WithOwners(old(acl.owners), ns[..i]))
      {
        assert ns[..i + 1][..i] == ns[..i];
        items := items[ns[i].id := ns[i]];
        acl.SetOwner(ns[i].id, ns[i].owner);
      }
      assert ns[..|ns|] == ns;
      RegisteredHolds(ns);
    }
  }

  lemma {:induction false} NoneCollected()
    ensures CollectsNamespaces([], map[])
  {}

  lemma {:induction false} CollectNamespace(ns: seq<Namespace>, items: map<Bytes, Namespace>, id: Bytes, n: Namespace)
    requires CollectsNamespaces(ns, items) && id !in items
    ensures CollectsNamespaces(ns + [n], items[id := n])
  {
    var items' := items[id := n];
    assert items'[id] == n;
    forall x | x in ns + [n]
      ensures exists i :: i in items' && items'[i] == x
    {
      if x in ns {
        var i :| i in items && items[i] == x;
        assert i in items' && items'[i] == x;
      }
    }
  }

  lemma {:induction false} SortNamespaces(ns: seq<Namespace>, items: map<Bytes, Namespace>)
    requires CollectsNamespaces(ns, items)
    ensures ListsNamespaces(Sort(IDAtMost, ns), items)
  {
    AtMostIsTotalOrder();
    SortIsSorted(IDAtMost, ns);
    forall n {
      SortKeepsElements(IDAtMost, ns, n);
    }
  }

  /** Registering a listing gives the same registry back, and exactly the owners listed. */
  lemma {:induction false} RegisterListing(items: map<Bytes, Namespace>, ns: seq<Namespace>)
    requires Keyed(items) && CollectsNamespaces(ns, items)
    ensures Registered(ns) == items
    ensures WithOwners(map[], ns) == map id | id in items :: items[id].owner
  {
    RegisteredHolds(ns);
    forall i | 0 <= i < |ns|
      ensures ns[i].id in items && items[ns[i].id] == ns[i]
    {
      assert ns[i] in ns;
    }
    forall id | id in items
      ensures id in Registered(ns)
    {
      var i :| 0 <= i < |ns| && ns[i] == items[id];
    }
  }

  lemma {:induction false} RegisteredHolds(ns: seq<Namespace>)
    ensures forall id :: id in Registered(ns) ==> Registered(ns)[id] in ns && Registered(ns)[id].id == id
    ensures forall i :: 0 <= i < |ns| ==> ns[i].id in Registered(ns)
    ensures WithOwners(map[], ns).Keys == Registered(ns).Keys
    ensures forall id :: id in Registered(ns) ==> WithOwners(map[], ns)[id] == Registered(ns)[id].owner
  {
    if ns != [] {
      var init, last := ns[..|ns| - 1], ns[|ns| - 1];
      RegisteredHolds(init);
      assert ns == init + [last];
      assert forall n :: n in init ==> n in ns;
      assert last in ns;
      forall i | 0 <= i < |ns|
        ensures ns[i].id in Registered(ns)
      {
        assert i < |init| ==> init[i] == ns[i];
      }
    }
  }
}
