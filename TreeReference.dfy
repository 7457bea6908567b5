/**
  LDAPTreeReference: a directory reference whose links are not stored but
  read off the LDAP tree. The sources of a target are the entry one level
  above it (its parent DN), and the targets of a source are the entries
  found under its DN with the configured search scope (RFC 4511, section
  4.5.1.2: baseObject, singleLevel, wholeSubtree).

  The directories are collaborators: an entry lookup by id
  (LDAPSession.getLdapEntry) and a search whose results have already been
  reduced to the value of the id attribute of each hit.
 */
module TreeReference {
  import opened Wrappers
  import opened TreeSets
  import opened LdapNames

  // The scope values of javax.naming.directory.SearchControls.
  const ObjectScope: int := 0
  const OneLevelScope: int := 1
  const SubtreeScope: int := 2

  /** LdapScope.getIntegerScope, which is not part of this model: the
      scope a configured name stands for, or None when it names no scope. */
  type ScopeLookup = string -> Option<int>

  predicate IsScope(k: int) {
    k == ObjectScope || k == OneLevelScope || k == SubtreeScope
  }

  /** The lookup answers only with SearchControls scope values. */
  ghost predicate ScopeValues(lookup: ScopeLookup) {
    forall name :: lookup(name).Some? ==> IsScope(lookup(name).value)
  }

  /** What LDAPSession.getLdapEntry(id, true) gives: no entry (null), an
      entry with its full DN, or a NamingException. */
  datatype EntryReply = NoEntry | Entry(nameInNamespace: string) | FetchFault

  /** The arguments of dirContext.search: base DN (None is null), filter and
      the search scope set on the copied search controls. */
  datatype SearchRequest = SearchRequest(base: Option<string>, filter: string, scope: int)

  /** A search's result enumeration: for each hit, the value of its id
      attribute (None when the attribute or its value is null); when
      endsInFault holds, the hasMore() that follows the last hit raises a
      NamingException (a search that fails at once has no hits). */
  datatype SearchReply = SearchReply(ids: seq<Option<string>>, endsInFault: bool)

  /** An LDAP directory as this reference uses it. */
  datatype LdapDirectory = LdapDirectory(
    baseFilter: string,
    getLdapEntry: string -> EntryReply,
    search: SearchRequest -> SearchReply)

  /** The DirectoryException cases of the two lookups, and the unchecked
      exception getParentDn lets escape for the empty name. */
  datatype LookupError =
    | SourceMissing(sourceId: string)  // "<id> does not exist in <directory>"
    | FetchFailed(id: string)          // "error fetching <id>"
    | SearchFailed(dn: string)         // "error during reference search for <dn>"
    | ParentIndexFault                 // IndexOutOfBoundsException from remove(-1)

  datatype Lookup = Ok(ids: seq<string>) | Failed(error: LookupError)

  /** String.format("(&%s)", baseFilter). */
  function AndFilter(baseFilter: string): string {
    "(&" + baseFilter + ")"
  }

  /** The search base for a parent DN; null when getParentDn gave null. */
  function SearchBase(p: ParentDn): Option<string> {
    if p.Parent? then Some(p.dn) else None
  }

  /** The first id present among the hits. */
  function FirstId(ids: seq<Option<string>>): Option<string> {
    if ids == [] then None
    else if ids[0].Some? then ids[0]
    else FirstId(ids[1..])
  }

  /** FirstId finds an id exactly when one is present, and the one it finds
      has only absent ids before it. */
  lemma {:induction false} FirstIdIsFirst(ids: seq<Option<string>>)
    ensures FirstId(ids).None? <==> forall i :: 0 <= i < |ids| ==> ids[i].None?
    ensures FirstId(ids).Some? ==>
              exists i :: 0 <= i < |ids| && ids[i] == FirstId(ids) &&
                          forall j :: 0 <= j < i ==> ids[j].None?
  {
    if ids != [] && ids[0].None? {
      FirstIdIsFirst(ids[1..]);
      assert forall i :: 1 <= i < |ids| ==> ids[i] == ids[1..][i - 1];
      if FirstId(ids).Some? {
        var k :| 0 <= k < |ids[1..]| && ids[1..][k] == FirstId(ids[1..]) &&
                 forall j :: 0 <= j < k ==> ids[1..][j].None?;
        assert ids[k + 1] == FirstId(ids) && forall j :: 0 <= j < k + 1 ==> ids[j].None?;
      }
    } else if ids != [] {
      assert ids[0] == FirstId(ids);
    }
  }

  class LDAPTreeReference {
    /** The search scope used to list the targets of a source. */
    var scope: int

    /** The scope is one of the three search scopes. */
    predicate Valid()
      reads this
    {
      IsScope(scope)
    }

    /** A fresh reference, before setScope runs: Java's default int 0. */
    constructor ()
      ensures scope == ObjectScope && Valid()
    {
      scope := ObjectScope;
    }

    method GetScope() returns (s: int)
      ensures s == scope
    {
      s := scope;
    }

    /** setScope: null means ONELEVEL; any other name goes to the scope
        lookup. ok is false when DirectoryException("Invalid search scope")
        is raised, and then the scope is left as it was. */
    method SetScope(lookup: ScopeLookup, s: Option<string>) returns (ok: bool)
      modifies this
      ensures s.None? ==> ok && scope == OneLevelScope
      ensures s.Some? && lookup(s.value).None? ==> !ok && scope == old(scope)
      ensures s.Some? && lookup(s.value).Some? ==> ok && scope == lookup(s.value).value
      ensures old(Valid()) && ScopeValues(lookup) ==> Valid()
    {
      if s.None? {
        scope := OneLevelScope;
        return true;
      }
      var searchScope := lookup(s.value);
      if searchScope.None? {
        return false;
      }
      scope := searchScope.value;
      return true;
    }

    /** getSourceIdsForTarget: the id of the entry at the target's parent
        DN, if the source directory has one there. issued is the search
        sent to the source directory, if any. */
    method GetSourceIdsForTarget(syntax: NameSyntax, sourceDir: LdapDirectory, targetDir: LdapDirectory,
                                 targetId: string)
      returns (r: Lookup, issued: Option<SearchRequest>)
      ensures targetDir.getLdapEntry(targetId).NoEntry? ==> r == Ok([]) && issued.None?
      ensures targetDir.getLdapEntry(targetId).FetchFault? ==> r == Failed(FetchFailed(targetId)) && issued.None?
      ensures targetDir.getLdapEntry(targetId).Entry? &&
              syntax.parse(targetDir.getLdapEntry(targetId).nameInNamespace).None? ==>
                r == Failed(FetchFailed(targetId)) && issued.None?
      ensures r.Ok? ==> |r.ids| <= 1
      ensures targetDir.getLdapEntry(targetId).Entry? &&
              syntax.parse(targetDir.getLdapEntry(targetId).nameInNamespace).Some? ==>
        var targetDn := NormalForm(syntax.parse(targetDir.getLdapEntry(targetId).nameInNamespace).value);
        var parent := GetParentDn(syntax, Some(targetDn));
        var request := SearchRequest(SearchBase(parent), AndFilter(sourceDir.baseFilter), ObjectScope);
        var reply := sourceDir.search(request);
        (parent.EmptyNameFault? ==> r == Failed(ParentIndexFault) && issued.None?) &&
        (!parent.EmptyNameFault? ==>
          issued == Some(request) &&
          (FirstId(reply.ids).Some? ==> r == Ok([FirstId(reply.ids).value])) &&
          (FirstId(reply.ids).None? && reply.endsInFault ==> r == Failed(SearchFailed(targetDn))) &&
          (FirstId(reply.ids).None? && !reply.endsInFault ==> r == Ok([])))
    {
      issued := None;
      var sourceIds: seq<string> := [];
      var entry := targetDir.getLdapEntry(targetId);
      if entry.NoEntry? {
        return Ok([]), None;
      }
      if entry.FetchFault? {
        return Failed(FetchFailed(targetId)), None;
      }
      var normalized := PseudoNormalizeDn(syntax, entry.nameInNamespace);
      if normalized.None? {
        return Failed(FetchFailed(targetId)), None;
      }
      var targetDn := normalized.value;

      var parentDn := GetParentDn(syntax, Some(targetDn));
      if parentDn.EmptyNameFault? {
        return Failed(ParentIndexFault), None;
      }
      var request := SearchRequest(SearchBase(parentDn), AndFilter(sourceDir.baseFilter), ObjectScope);
      issued := Some(request);
      var results := sourceDir.search(request);
      var i := 0;
      while i < |results.ids|
        invariant 0 <= i <= |results.ids|
        invariant sourceIds == []
        invariant FirstId(results.ids) == FirstId(results.ids[i..])
      {
        assert results.ids[i..][1..] == results.ids[i + 1..];
        if results.ids[i].Some? {
          sourceIds := Insert(sourceIds, results.ids[i].value);
          break;
        }
        i := i + 1;
      }
      if sourceIds == [] && results.endsInFault {
        return Failed(SearchFailed(targetDn)), issued;
      }
      r := Ok(sourceIds);
    }

    /** getTargetIdsForSource: the distinct ids found under the source's DN
        with the configured scope, in TreeSet order, the source itself
        excluded. issued is the search sent to the target directory, if any. */
    method GetTargetIdsForSource(syntax: NameSyntax, sourceDir: LdapDirectory, targetDir: LdapDirectory,
                                 sourceId: string)
      returns (r: Lookup, issued: Option<SearchRequest>)
      ensures sourceDir.getLdapEntry(sourceId).NoEntry? ==> r == Failed(SourceMissing(sourceId)) && issued.None?
      ensures sourceDir.getLdapEntry(sourceId).FetchFault? ==> r == Failed(FetchFailed(sourceId)) && issued.None?
      ensures sourceDir.getLdapEntry(sourceId).Entry? &&
              syntax.parse(sourceDir.getLdapEntry(sourceId).nameInNamespace).None? ==>
                r == Failed(FetchFailed(sourceId)) && issued.None?
      ensures r.Ok? ==> StrictlySorted(r.ids) && sourceId !in r.ids
      ensures sourceDir.getLdapEntry(sourceId).Entry? &&
              syntax.parse(sourceDir.getLdapEntry(sourceId).nameInNamespace).Some? ==>
        var sourceDn := NormalForm(syntax.parse(sourceDir.getLdapEntry(sourceId).nameInNamespace).value);
        var request := SearchRequest(Some(sourceDn), AndFilter(targetDir.baseFilter), scope);
        var reply := targetDir.search(request);
        issued == Some(request) &&
        (reply.endsInFault ==> r == Failed(SearchFailed(sourceDn))) &&
        (!reply.endsInFault ==> r.Ok? && forall x :: x in r.ids <==> Some(x) in reply.ids && x != sourceId)
    {
      var targetIds: seq<string> := [];
      var entry := sourceDir.getLdapEntry(sourceId);
      if entry.NoEntry? {
        return Failed(SourceMissing(sourceId)), None;
      }
      if entry.FetchFault? {
        return Failed(FetchFailed(sourceId)), None;
      }
      var normalized := PseudoNormalizeDn(syntax, entry.nameInNamespace);
      if normalized.None? {
        return Failed(FetchFailed(sourceId)), None;
      }
      var sourceDn := normalized.value;

      var request := SearchRequest(Some(sourceDn), AndFilter(targetDir.baseFilter), scope);
      issued := Some(request);
      var results := targetDir.search(request);
      var i := 0;
      while i < |results.ids|
        invariant 0 <= i <= |results.ids|
        invariant StrictlySorted(targetIds)
        invariant forall x :: x in targetIds <==> Some(x) in results.ids[..i] && x != sourceId
      {
        assert results.ids[..i + 1] == results.ids[..i] + [results.ids[i]];
        if results.ids[i].Some? {
          var targetId := results.ids[i].value;
          if sourceId != targetId {
            targetIds := Insert(targetIds, targetId);
          }
        }
        i := i + 1;
      }
      assert results.ids[..i] == results.ids;
      if results.endsInFault {
        return Failed(SearchFailed(sourceDn)), issued;
      }
      r := Ok(targetIds);
    }

    /** addLinks(sourceId, targetIds): not implemented; changes nothing. */
    method AddLinksForSource(sourceId: string, targetIds: seq<string>)
      ensures unchanged(this)
    {
    }

    /** addLinks(sourceIds, targetId): not implemented; changes nothing. */
    method AddLinksForTarget(sourceIds: seq<string>, targetId: string)
      ensures unchanged(this)
    {
    }

    /** removeLinksForSource: not implemented; changes nothing. */
    method RemoveLinksForSource(sourceId: string)
      ensures unchanged(this)
    {
    }

    /** removeLinksForTarget: not implemented; changes nothing. */
    method RemoveLinksForTarget(targetId: string)
      ensures unchanged(this)
    {
    }

    /** setSourceIdsForTarget: not implemented; changes nothing. */
    method SetSourceIdsForTarget(targetId: string, sourceIds: seq<string>)
      ensures unchanged(this)
    {
    }

    /** setTargetIdsForSource: not implemented; changes nothing. */
    method SetTargetIdsForSource(sourceId: string, targetIds: seq<string>)
      ensures unchanged(this)
    {
    }

    /** clone: a new reference with the same scope. */
    method Clone() returns (c: LDAPTreeReference)
      ensures fresh(c) && c.scope == scope
    {
      c := new LDAPTreeReference();
      c.scope := scope;
    }
  }

  /** The link mutators are structural no-ops: a lookup made after any of
      them answers exactly as the same lookup made before. */
  method LinksAreStructural(ref: LDAPTreeReference, syntax: NameSyntax,
                            sourceDir: LdapDirectory, targetDir: LdapDirectory,
                            sourceId: string, targetId: string, ids: seq<string>)
    returns (before: Lookup, after: Lookup, parentBefore: Lookup, parentAfter: Lookup)
    ensures before == after && parentBefore == parentAfter
  {
    var q;
    before, q := ref.GetTargetIdsForSource(syntax, sourceDir, targetDir, sourceId);
    parentBefore, q := ref.GetSourceIdsForTarget(syntax, sourceDir, targetDir, targetId);
    ref.AddLinksForSource(sourceId, ids);
    ref.AddLinksForTarget(ids, targetId);
    ref.RemoveLinksForSource(sourceId);
    ref.RemoveLinksForTarget(targetId);
    ref.SetSourceIdsForTarget(targetId, ids);
    ref.SetTargetIdsForSource(sourceId, ids);
    after, q := ref.GetTargetIdsForSource(syntax, sourceDir, targetDir, sourceId);
    parentAfter, q := ref.GetSourceIdsForTarget(syntax, sourceDir, targetDir, targetId);
    if before.Ok? && after.Ok? {
      SortedUnique(before.ids, after.ids);
    }
  }

  /** The directories of the people scenario: alice and bob sit under
      ou=people,dc=x, and the entry root is dc=x itself. */
  function Units(): LdapDirectory {
    LdapDirectory("(objectClass=organizationalUnit)",
      id => if id == "people" then Entry("ou=people,dc=x") else NoEntry,
      (req: SearchRequest) =>
        if req.base == Some("") then SearchReply([], false)
        else SearchReply([Some("people")], false))
  }

  function Persons(): LdapDirectory {
    LdapDirectory("(objectClass=person)",
      id => if id == "root" then Entry("dc=x") else NoEntry,
      (req: SearchRequest) =>
        if req.scope == OneLevelScope then SearchReply([Some("bob"), None, Some("alice"), Some("bob")], false)
        else SearchReply([], false))
  }

  /** With ONELEVEL scope the children of people are alice and bob, once
      each and in order; the result without an id is skipped. */
  method ChildrenScenario(syntax: NameSyntax, lookup: ScopeLookup) returns (children: Lookup)
    requires syntax.parse("ou=people,dc=x").Some?
    requires lookup("onelevel") == Some(OneLevelScope)
    ensures children == Ok(["alice", "bob"])
  {
    var ref := new LDAPTreeReference();
    var ok := ref.SetScope(lookup, Some("onelevel"));
    var issued;
    children, issued := ref.GetTargetIdsForSource(syntax, Units(), Persons(), "people");
    assert issued.value.scope == OneLevelScope;
    assert Persons().search(issued.value).ids == [Some("bob"), None, Some("alice"), Some("bob")];
    assert Some("alice") in Persons().search(issued.value).ids;
    assert Less("alice", "bob");
    SortedUnique(children.ids, ["alice", "bob"]);
  }

  /** root is dc=x: its parent is the empty name, so the search goes to
      the empty base at OBJECT scope. The unit directory answers "people"
      at every other base and nothing at the empty one, so the answer is
      empty, not an error. */
  method RootScenario(syntax: NameSyntax) returns (parents: Lookup, issued: Option<SearchRequest>)
    requires syntax.parse("dc=x") == Some([Rdn(Ava("dc", "x"), [])])
    ensures issued == Some(SearchRequest(Some(""), AndFilter(Units().baseFilter), ObjectScope))
    ensures parents == Ok([])
  {
    var ref := new LDAPTreeReference();
    NormalFormOfParent(syntax.parse("dc=x").value);
    assert NormalRdn(Rdn(Ava("dc", "x"), [])) == "dc=x";
    assert GetParentDn(syntax, Some("dc=x")) == Parent("");
    parents, issued := ref.GetSourceIdsForTarget(syntax, Units(), Persons(), "root");
  }

  /** A directory holding one entry, at EscapedDn. */
  function Escapes(): LdapDirectory {
    LdapDirectory("(objectClass=person)",
      id => if id == "t" then Entry(EscapedDn) else NoEntry,
      (req: SearchRequest) => SearchReply([], false))
  }

  /** The comparison form of cn=a\\,dc=x is cn=a\,dc=x, which the naming
      library reads back as the single RDN cn="a,dc=x". So the parent that
      getSourceIdsForTarget searches is the empty name, not dc=x. */
  method BackslashParentScenario(syntax: NameSyntax) returns (sources: Lookup, issued: Option<SearchRequest>)
    requires ReadsEscapes(syntax)
    ensures issued == Some(SearchRequest(Some(""), AndFilter(Units().baseFilter), ObjectScope))
    ensures sources == Ok([])
  {
    var ref := new LDAPTreeReference();
    BackslashParentIsEmpty(syntax);
    sources, issued := ref.GetSourceIdsForTarget(syntax, Units(), Escapes(), "t");
  }
}
