/** The collaborators BaseManager drives: Doctrine's entity manager, reduced to the log of operations it
    is asked to perform, its repositories as opaque handles, and the records it manages. */
module Persistence {
  import opened Wrappers
  import opened Ascii
  import opened PhpValues

  /** A repository handle, identified by the entity reference it was obtained for. */
  datatype Repository = Repository(entity: string)

  /** A query builder over one repository's entities under an alias, as createQueryBuilder builds it. */
  datatype Query = Query(repository: Repository, alias: string)

  /** A managed record. */
  class Record {
    /** The record's class followed by its ancestors and interfaces: the names is_a accepts. */
    const classChain: seq<string>
    /** Whether the record's class has getState (and setState). */
    const hasGetState: bool
    var state: PhpValue

    constructor (classChain: seq<string>, hasGetState: bool, state: PhpValue)
      ensures this.classChain == classChain && this.hasGetState == hasGetState && this.state == state
    {
      this.classChain := classChain;
      this.hasGetState := hasGetState;
      this.state := state;
    }
  }

  /** A PHP class name never ends with the namespace separator. */
  predicate IsClassName(name: string) {
    |name| > 0 && name[|name| - 1] != '\\'
  }

  predicate HasClassNames(rec: Record) {
    forall i :: 0 <= i < |rec.classChain| ==> IsClassName(rec.classChain[i])
  }

  /** The name PHP looks a class up by: one leading '\' of a fully qualified name is dropped. */
  function ClassLookupName(cls: string): string {
    if |cls| > 0 && cls[0] == '\\' then cls[1..] else cls
  }

  /** is_a($record, $cls): the record's class or one of its ancestors is named cls, written with or without a
      leading '\' (class names are caseless). */
  predicate IsA(rec: Record, cls: string) {
    exists i :: 0 <= i < |rec.classChain| && SameIgnoringCase(rec.classChain[i], ClassLookupName(cls))
  }

  /** Only the first byte of a name can be the dropped separator. */
  lemma ClassLookupNameAppend(pre: string, x: string)
    requires |pre| > 0
    ensures ClassLookupName(pre + x) == ClassLookupName(pre) + x
  {
    if pre[0] == '\\' {
      assert (pre + x)[1..] == pre[1..] + x;
    }
  }

  /** A fully qualified class name and the same name without its leading '\' are the same class to is_a. */
  lemma IsAFullyQualified(rec: Record, cls: string)
    requires cls == [] || cls[0] != '\\'
    ensures IsA(rec, "\\" + cls) == IsA(rec, cls)
  {
    assert ClassLookupName("\\" + cls) == cls;
  }

  /** is_a against a name that ends with '\' never holds, since no class is called that. */
  lemma IsANeverTrailingSeparator(rec: Record, cls: string)
    requires HasClassNames(rec)
    requires |cls| > 0 && cls[|cls| - 1] == '\\'
    ensures !IsA(rec, cls)
  {
  }

  /** What the entity manager was asked to do. */
  datatype Op = PersistOp(record: Record) | RemoveOp(record: Record) | FlushOp

  /** Doctrine's entity manager, seen through the operations it receives. */
  class EntityManager {
    /** The record each repository's find returns for an identifier. */
    const rows: map<Repository, map<Key, Record>>
    /** Every persist, remove and flush, in order. */
    var log: seq<Op>

    constructor (rows: map<Repository, map<Key, Record>>)
      ensures this.rows == rows && log == []
    {
      this.rows := rows;
      log := [];
    }

    method Persist(e: Record)
      modifies this
      ensures log == old(log) + [PersistOp(e)]
    {
      log := log + [PersistOp(e)];
    }

    method Remove(e: Record)
      modifies this
      ensures log == old(log) + [RemoveOp(e)]
    {
      log := log + [RemoveOp(e)];
    }

    method Flush()
      modifies this
      ensures log == old(log) + [FlushOp]
    {
      log := log + [FlushOp];
    }

    /** getRepository($entityName). */
    function GetRepository(entity: string): Repository {
      Repository(entity)
    }

    /** $repository->find($id): the stored record, or null. */
    function Find(repo: Repository, id: Key): Option<Record> {
      if repo in rows && id in rows[repo] then Some(rows[repo][id]) else None
    }
  }
}
