/** BaseManager: the configuration, persistence façade, lookup and state helpers that concrete
    managers inherit. */
module Managers {
  import opened Wrappers
  import opened Ascii
  import opened PhpValues
  import opened EntityNames
  import opened Persistence

  datatype Error =
    /** NoSuchPropertyException from toggleState, or PHP's error on a call to a missing getState. */
    | NoSuchMethod(methodName: string)
    /** The \Exception switchState throws: "Entity is not an instance of <entityName>". */
    | NotAnInstance(entityName: string)
    /** The repository property find or findAllPaginated reads is undefined or null. */
    | NoRepository(attribute: string)

  /** The Pagerfanta object, as far as BaseManager configures it. */
  datatype Pager = Pager(query: Query, maxPerPage: Option<int>, currentPage: int)

  /** Pagerfanta's current page until setCurrentPage is called. */
  const FirstPage := 1

  /** findAllPaginated's default page size. */
  const DefaultMaxPerPage := 10

  /** The argument of switchState: a record, a string or integer identifier, or any other value. */
  datatype SwitchArg = Entity(record: Record) | Id(key: Key) | OtherValue

  /** PHP's truth value of an optional string argument: null, "" and "0" are false. */
  predicate Given(p: Option<string>) {
    p.Some? && Truthy(Str(p.value))
  }

  /** lcfirst($str): the first byte lower-cased, the rest unchanged. */
  function LcFirst(s: string): string {
    if s == [] then [] else [LowerChar(s[0])] + s[1..]
  }

  /** The property find reads its repository from: lcfirst(name) . 'Repository', or 'repository' for null. */
  function RepositoryAttribute(name: Option<string>): string {
    if name.Some? then LcFirst(name.value) + "Repository" else "repository"
  }

  /** The class name createNew builds: '<namespace>\Entity\<name>'. */
  function EntityClass(ns: string, name: string): string {
    ns + "\\Entity\\" + name
  }

  /** A name passed to find never selects the default repository property, whatever its spelling. */
  lemma NamedAttributeIsNotDefault(name: string)
    ensures RepositoryAttribute(Some(name)) != RepositoryAttribute(None)
  {
    var a := RepositoryAttribute(Some(name));
    if |a| == 10 {
      assert name == [] && a == "Repository";
      assert a[0] != "repository"[0];
    }
  }

  /** Two names share a repository property exactly when they differ at most in the case of their first letter. */
  lemma RepositoryAttributeSame(a: string, b: string)
    ensures RepositoryAttribute(Some(a)) == RepositoryAttribute(Some(b)) <==>
      |a| == |b| && (|a| > 0 ==> a[1..] == b[1..] && LowerChar(a[0]) == LowerChar(b[0]))
  {
    var x, y := RepositoryAttribute(Some(a)), RepositoryAttribute(Some(b));
    if x == y {
      assert |a| == |b|;
      if |a| > 0 {
        assert x[0] == y[0];
        assert a[1..] == x[1..|a|] == y[1..|b|] == b[1..];
      }
    }
  }

  /** createNew's class name determines the entity name it was built from. */
  lemma EntityClassInjective(ns: string, a: string, b: string)
    requires EntityClass(ns, a) == EntityClass(ns, b)
    ensures a == b
  {
    var k := |ns| + 8;
    assert a == EntityClass(ns, a)[k..];
    assert b == EntityClass(ns, b)[k..];
  }

  class BaseManager {
    var em: EntityManager
    var bundleName: string
    var bundleNamespace: string
    var entityName: string
    var repository: Option<Repository>
    /** The further repository properties a concrete manager declares (such as userRepository),
        null until assigned. */
    var repositories: map<string, Option<Repository>>
    var pagerMaxPerPage: Option<int>

    /** A manager as the container creates it and hands it its entity manager: every other property null
        (null reads as "" where the class interpolates it). */
    constructor (em: EntityManager, repositoryProperties: set<string>)
      ensures this.em == em
      ensures bundleName == "" && bundleNamespace == "" && entityName == ""
      ensures repository == None && pagerMaxPerPage == None
      ensures repositories == map p | p in repositoryProperties :: None
    {
      this.em := em;
      bundleName, bundleNamespace, entityName := "", "", "";
      repository := None;
      repositories := map p | p in repositoryProperties :: None;
      pagerMaxPerPage := None;
    }

    method SetEntityManager(em: EntityManager)
      modifies this`em
      ensures this.em == em
    {
      this.em := em;
    }

    method SetBundleName(name: string)
      modifies this`bundleName
      ensures bundleName == name
    {
      bundleName := name;
    }

    method SetBundleNamespace(ns: string)
      modifies this`bundleNamespace
      ensures bundleNamespace == ns
    {
      bundleNamespace := ns;
    }

    method SetPagerDefaultMaxPerPage(n: int)
      modifies this`pagerMaxPerPage
      ensures pagerMaxPerPage == Some(n)
    {
      pagerMaxPerPage := Some(n);
    }

    /** decodeEntityName: on a reference to this bundle, store the captured name in the entity
        property and the repository for the whole reference in the repository property, each only
        when it is given; on any other reference, change nothing. */
    method DecodeEntityName(ref: string, entityProperty: Option<string>, repoProperty: Option<string>)
      requires !Given(entityProperty) || entityProperty.value == "entityName"
      requires !Given(repoProperty) || repoProperty.value == "repository" || repoProperty.value in repositories
      modifies this`entityName, this`repository, this`repositories
      ensures MatchReference(bundleName, ref).None? ==>
        entityName == old(entityName) && repository == old(repository) && repositories == old(repositories)
      ensures MatchReference(bundleName, ref).Some? ==>
        entityName == (if Given(entityProperty) then MatchReference(bundleName, ref).value else old(entityName))
      ensures MatchReference(bundleName, ref).Some? ==>
        repository == (if Given(repoProperty) && repoProperty.value == "repository"
          then Some(em.GetRepository(ref)) else old(repository))
      ensures MatchReference(bundleName, ref).Some? ==>
        repositories == (if Given(repoProperty) && repoProperty.value != "repository"
          then old(repositories)[repoProperty.value := Some(em.GetRepository(ref))] else old(repositories))
    {
      var m := MatchReference(bundleName, ref);
      if m.Some? {
        if Given(entityProperty) {
          entityName := m.value;
        }
        if Given(repoProperty) {
          var repo := em.GetRepository(ref);
          if repoProperty.value == "repository" {
            repository := Some(repo);
          } else {
            repositories := repositories[repoProperty.value := Some(repo)];
          }
        }
      }
    }

    /** setEntity: decode the reference into entityName and repository. */
    method SetEntity(ref: string)
      modifies this`entityName, this`repository, this`repositories
      ensures MatchReference(bundleName, ref).Some? ==>
        entityName == MatchReference(bundleName, ref).value && repository == Some(em.GetRepository(ref))
      ensures MatchReference(bundleName, ref).None? ==>
        entityName == old(entityName) && repository == old(repository)
      ensures repositories == old(repositories)
    {
      DecodeEntityName(ref, Some("entityName"), Some("repository"));
    }

    method PersistAndFlush(e: Record) returns (r: Record)
      modifies em
      ensures r == e
      ensures em.log == old(em.log) + [PersistOp(e), FlushOp]
    {
      em.Persist(e);
      em.Flush();
      r := e;
    }

    method Save(e: Record) returns (r: Record)
      modifies em
      ensures r == e
      ensures em.log == old(em.log) + [PersistOp(e), FlushOp]
    {
      r := PersistAndFlush(e);
    }

    method Persist(e: Record) returns (r: Record)
      modifies em
      ensures r == e
      ensures em.log == old(em.log) + [PersistOp(e)]
    {
      em.Persist(e);
      r := e;
    }

    method Flush()
      modifies em
      ensures em.log == old(em.log) + [FlushOp]
    {
      em.Flush();
    }

    method Delete(e: Record) returns (r: int)
      modifies em
      ensures r == 1
      ensures em.log == old(em.log) + [RemoveOp(e), FlushOp]
    {
      em.Remove(e);
      em.Flush();
      r := 1;
    }

    method Remove(e: Record)
      modifies em
      ensures em.log == old(em.log) + [RemoveOp(e)]
    {
      em.Remove(e);
    }

    /** The value of the repository property named attr: the default one, a declared one, or null. */
    function RepositoryProperty(attr: string): Option<Repository>
      reads this
    {
      if attr == "repository" then repository
      else if attr in repositories then repositories[attr]
      else None
    }

    /** find($id, $entityName): the record the selected repository holds for id, or null; an error when
        that repository property is undefined or null. */
    function Find(id: Key, name: Option<string>): (r: Result<Option<Record>, Error>)
      reads this
      ensures r.Failure? <==> RepositoryProperty(RepositoryAttribute(name)).None?
      ensures r.Failure? ==> r.error == NoRepository(RepositoryAttribute(name))
      ensures r.Success? ==> r.value == em.Find(RepositoryProperty(RepositoryAttribute(name)).value, id)
    {
      match RepositoryProperty(RepositoryAttribute(name))
      case None => Failure(NoRepository(RepositoryAttribute(name)))
      case Some(repo) => Success(em.Find(repo, id))
    }

    /** A lookup by entity name reads only the declared lcfirst(name) . 'Repository' property, never the default one. */
    lemma FindByName(id: Key, name: string)
      ensures var attr := LcFirst(name) + "Repository";
        Find(id, Some(name)) ==
          if attr in repositories && repositories[attr].Some?
          then Success(em.Find(repositories[attr].value, id))
          else Failure(NoRepository(attr))
    {
      NamedAttributeIsNotDefault(name);
    }

    /** A lookup without a name uses the repository set by setEntity. */
    lemma FindDefault(id: Key)
      ensures Find(id, None) ==
        if repository.Some? then Success(em.Find(repository.value, id)) else Failure(NoRepository("repository"))
    {
    }

    /** createNew's class: '<bundleNamespace>\Entity\' followed by className when it is truthy, otherwise by entityName. */
    function CreateNewClass(className: Option<string>): string
      reads this
    {
      EntityClass(bundleNamespace, if Given(className) then className.value else entityName)
    }

    /** Null, "" and "0" all fall back to the managed entity. */
    lemma CreateNewFallsBack()
      ensures CreateNewClass(None) == CreateNewClass(Some("")) == CreateNewClass(Some("0")) == ManagedClass()
    {
    }

    /** Two truthy class names that differ beyond ASCII case name two different classes (PHP class names are
        caseless). */
    lemma CreateNewDistinguishesClasses(a: string, b: string)
      requires Given(Some(a)) && Given(Some(b)) && !SameIgnoringCase(a, b)
      ensures !SameIgnoringCase(CreateNewClass(Some(a)), CreateNewClass(Some(b)))
      ensures !SameIgnoringCase(ClassLookupName(CreateNewClass(Some(a))), ClassLookupName(CreateNewClass(Some(b))))
    {
      var x, y := CreateNewClass(Some(a)), CreateNewClass(Some(b));
      var k := |bundleNamespace| + 8;
      assert x[k..] == a && y[k..] == b;
      SuffixDiffers(x, y, k);
      var pre := bundleNamespace + "\\Entity\\";
      ClassLookupNameAppend(pre, a);
      ClassLookupNameAppend(pre, b);
      var lx, ly := ClassLookupName(x), ClassLookupName(y);
      var j := |ClassLookupName(pre)|;
      assert lx[j..] == a && ly[j..] == b;
      SuffixDiffers(lx, ly, j);
    }

    /** A truthy class name yields a different class-name string from another truthy name. */
    lemma CreateNewDistinguishes(a: string, b: string)
      requires Given(Some(a)) && Given(Some(b)) && a != b
      ensures CreateNewClass(Some(a)) != CreateNewClass(Some(b))
    {
      if CreateNewClass(Some(a)) == CreateNewClass(Some(b)) {
        EntityClassInjective(bundleNamespace, a, b);
      }
    }

    /** getPagerFromQueryBuilder: a pager over qb whose page size is maxPerPage when it is a positive
        number and the configured default otherwise. */
    function GetPagerFromQueryBuilder(qb: Query, maxPerPage: Option<int>): (p: Pager)
      reads this
      ensures p.query == qb && p.currentPage == FirstPage
      ensures maxPerPage.Some? && maxPerPage.value > 0 ==> p.maxPerPage == maxPerPage
      ensures !(maxPerPage.Some? && maxPerPage.value > 0) ==> p.maxPerPage == pagerMaxPerPage
    {
      Pager(qb, if maxPerPage.Some? && maxPerPage.value > 0 then maxPerPage else pagerMaxPerPage, FirstPage)
    }

    /** findAllPaginated: a pager over all the managed entities, set to the requested page. */
    function FindAllPaginated(page: int, maxPerPage: Option<int>): (r: Result<Pager, Error>)
      reads this
      ensures r.Failure? <==> repository.None?
      ensures r.Failure? ==> r.error == NoRepository("repository")
      ensures r.Success? ==> r.value.query == Query(repository.value, "e") && r.value.currentPage == page
      ensures r.Success? ==>
        r.value.maxPerPage == GetPagerFromQueryBuilder(r.value.query, maxPerPage).maxPerPage
    {
      match repository
      case None => Failure(NoRepository("repository"))
      case Some(repo) => Success(GetPagerFromQueryBuilder(Query(repo, "e"), maxPerPage).(currentPage := page))
    }

    /** With a positive default configured, every pager gets a positive page size. */
    lemma PageSizeAlwaysPositive(qb: Query, maxPerPage: Option<int>)
      requires pagerMaxPerPage.Some? && pagerMaxPerPage.value > 0
      ensures var p := GetPagerFromQueryBuilder(qb, maxPerPage); p.maxPerPage.Some? && p.maxPerPage.value > 0
    {
    }

    /** findAllPaginated($page) without a page size shows ten records a page. */
    lemma FindAllPaginatedDefault(page: int)
      requires repository.Some?
      ensures FindAllPaginated(page, Some(DefaultMaxPerPage)) ==
        Success(Pager(Query(repository.value, "e"), Some(10), page))
    {
    }

    /** toggleState: store !state and save once, returning the new state; a record without getState
        is rejected before anything changes. */
    method ToggleState(rec: Record) returns (r: Result<PhpValue, Error>)
      modifies em, rec
      ensures !rec.hasGetState ==>
        r == Failure(NoSuchMethod("getState")) && em.log == old(em.log) && rec.state == old(rec.state)
      ensures rec.hasGetState ==>
        rec.state == Toggled(old(rec.state)) && r == Success(rec.state) &&
        em.log == old(em.log) + [PersistOp(rec), FlushOp]
    {
      if !rec.hasGetState {
        return Failure(NoSuchMethod("getState"));
      }
      rec.state := Toggled(rec.state);
      var saved := Save(rec);
      r := Success(rec.state);
    }

    /** The class checkInstance passes to is_a: sprintf('%s\\Entity\\', ...) has one placeholder, so the
        entity name given as a second argument is dropped. */
    function CheckInstanceClass(): string
      reads this
    {
      bundleNamespace + "\\Entity\\"
    }

    /** The managed entity's class, the one createNew instantiates by default. */
    function ManagedClass(): string
      reads this
    {
      EntityClass(bundleNamespace, entityName)
    }

    /** checkInstance as written; null and non-objects are never instances. */
    predicate CheckInstance(target: Option<Record>)
      reads this
    {
      target.Some? && IsA(target.value, CheckInstanceClass())
    }

    /** checkInstance as evidently intended: the record is of the managed class or a subclass. */
    predicate CheckManagedInstance(target: Option<Record>)
      reads this
    {
      target.Some? && IsA(target.value, ManagedClass())
    }

    /** As written, checkInstance holds for no record at all. */
    lemma CheckInstanceNeverHolds(target: Option<Record>)
      requires target.Some? ==> HasClassNames(target.value)
      ensures !CheckInstance(target)
    {
      if target.Some? {
        IsANeverTrailingSeparator(target.value, CheckInstanceClass());
      }
    }

    /** The corrected check accepts a record of the class createNew builds for the managed entity (PHP names the
        class without the leading '\' a fully qualified namespace may carry). */
    lemma ManagedInstanceAccepted(rec: Record)
      requires |rec.classChain| > 0 && rec.classChain[0] == ClassLookupName(CreateNewClass(None))
      ensures CheckManagedInstance(Some(rec))
    {
      assert SameIgnoringCase(rec.classChain[0], ClassLookupName(ManagedClass()));
    }

    /** The corrected check rejects a record whose only class is another entity of the same bundle. */
    lemma ManagedInstanceRejectsSibling(rec: Record, other: string)
      requires rec.classChain == [ClassLookupName(EntityClass(bundleNamespace, other))]
      requires !SameIgnoringCase(other, entityName)
      ensures !CheckManagedInstance(Some(rec))
    {
      var pre := bundleNamespace + "\\Entity\\";
      ClassLookupNameAppend(pre, other);
      ClassLookupNameAppend(pre, entityName);
      var a, b := ClassLookupName(pre + other), ClassLookupName(pre + entityName);
      var k := |ClassLookupName(pre)|;
      assert a[k..] == other && b[k..] == entityName;
      SuffixDiffers(a, b, k);
    }

    /** switchState's argument after a string or integer was resolved with find($entity). */
    function Resolve(arg: SwitchArg): Result<Option<Record>, Error>
      reads this
    {
      match arg
      case Entity(rec) => Success(Some(rec))
      case Id(key) => Find(key, None)
      case OtherValue => Success(None)
    }

    /** The record switchState may change. */
    function Targets(arg: SwitchArg): set<Record>
      reads this
    {
      match Resolve(arg)
      case Success(Some(rec)) => {rec}
      case _ => {}
    }

    /** What switchState returns when it checks against the class expected, read before the call. */
    function SwitchOutcome(arg: SwitchArg, expected: string): Result<int, Error>
      reads this, Targets(arg)
    {
      match Resolve(arg)
      case Failure(e) => Failure(e)
      case Success(None) => Failure(NotAnInstance(entityName))
      case Success(Some(rec)) =>
        if !IsA(rec, expected) then Failure(NotAnInstance(entityName))
        else if !rec.hasGetState then Failure(NoSuchMethod("getState"))
        else Success(Switched(rec.state))
    }

    /** The body of switchState, for either class check. */
    method SwitchStateChecking(arg: SwitchArg, expected: string) returns (r: Result<int, Error>)
      modifies em, Targets(arg)
      ensures r == old(SwitchOutcome(arg, expected))
      ensures r.Failure? ==> em.log == old(em.log) && unchanged(Targets(arg))
      ensures r.Success? ==> Resolve(arg).Success? && Resolve(arg).value.Some?
      ensures r.Success? ==> var rec := Resolve(arg).value.value;
        rec.state == Int(r.value) && em.log == old(em.log) + [PersistOp(rec), FlushOp]
    {
      var resolved := Resolve(arg);
      if resolved.Failure? {
        return Failure(resolved.error);
      }
      var target := resolved.value;
      if target.None? || !IsA(target.value, expected) {
        return Failure(NotAnInstance(entityName));
      }
      var rec := target.value;
      if !rec.hasGetState {
        return Failure(NoSuchMethod("getState"));
      }
      var n := Switched(rec.state);
      rec.state := Int(n);
      var saved := Save(rec);
      r := Success(n);
    }

    /** switchState as written: it checks against '<bundleNamespace>\Entity\', so for records whose
        class names are legal it always throws and saves nothing. */
    method SwitchState(arg: SwitchArg) returns (r: Result<int, Error>)
      modifies em, Targets(arg)
      ensures r == old(SwitchOutcome(arg, CheckInstanceClass()))
      ensures r.Failure? ==> em.log == old(em.log) && unchanged(Targets(arg))
      ensures (forall rec :: rec in Targets(arg) ==> HasClassNames(rec)) ==> r.Failure?
    {
      r := SwitchStateChecking(arg, CheckInstanceClass());
      var resolved := Resolve(arg);
      if resolved.Success? && resolved.value.Some? && HasClassNames(resolved.value.value) {
        IsANeverTrailingSeparator(resolved.value.value, CheckInstanceClass());
      }
    }

    /** switchState as evidently intended: a record of the managed class (or a subclass) with getState,
        given directly or by identifier, flips between 0 and 1 and is saved once. */
    method SwitchStateIntended(arg: SwitchArg) returns (r: Result<int, Error>)
      modifies em, Targets(arg)
      ensures r == old(SwitchOutcome(arg, ManagedClass()))
      ensures r.Failure? ==> em.log == old(em.log) && unchanged(Targets(arg))
      ensures r.Success? ==> Resolve(arg).Success? && Resolve(arg).value.Some?
      ensures r.Success? ==> var rec := Resolve(arg).value.value;
        rec.state == Int(r.value) && em.log == old(em.log) + [PersistOp(rec), FlushOp]
    {
      r := SwitchStateChecking(arg, ManagedClass());
    }

    /** With the corrected check, a managed record with getState is switched: 0 and every state other than
        the integer 1 become 1, the integer 1 becomes 0. */
    lemma SwitchIntendedSucceeds(arg: SwitchArg)
      requires Resolve(arg).Success? && CheckManagedInstance(Resolve(arg).value)
      requires Resolve(arg).value.value.hasGetState
      ensures var rec := Resolve(arg).value.value;
        SwitchOutcome(arg, ManagedClass()) == Success(if rec.state == Int(1) then 0 else 1)
    {
    }

    /** As written, switchState answers with an error for every argument whose records have legal class names. */
    lemma SwitchStateAlwaysFails(arg: SwitchArg)
      requires forall rec :: rec in Targets(arg) ==> HasClassNames(rec)
      ensures SwitchOutcome(arg, CheckInstanceClass()).Failure?
    {
      if Resolve(arg).Success? && Resolve(arg).value.Some? {
        CheckInstanceNeverHolds(Resolve(arg).value);
      }
    }
  }
}
