/** Compiled procedures and the cache that finds them by id, by alias and by MAST root. */
module ProcedureCaching {
  import opened Results
  import opened Mast
  import opened SpanBuilding

  type ProcId = nat

  /** A compiled procedure; the callset holds the roots of all procedures it may call. */
  datatype Procedure = Procedure(numLocals: nat, code: CodeBlock, callset: set<Digest>)

  datatype NamedProcedure = NamedProcedure(name: string, isExport: bool, procedure: Procedure)

  type Hash = CodeBlock -> Digest

  datatype Cache = Cache(procedures: map<Digest, Procedure>, ids: map<ProcId, Digest>, aliases: map<ProcId, ProcId>)

  const EMPTY_CACHE := Cache(map[], map[], map[])

  predicate Contains(c: Cache, id: ProcId) {
    id in c.ids || id in c.aliases
  }

  /**
   Ids and aliases are disjoint, an alias names an id (so chains have length one), an id names a
   cached root, and a procedure is cached under its own root.
   */
  ghost predicate ValidCache(hash: Hash, c: Cache) {
    && c.ids.Keys !! c.aliases.Keys
    && (forall a :: a in c.aliases ==> c.aliases[a] in c.ids)
    && (forall id :: id in c.ids ==> c.ids[id] in c.procedures)
    && (forall root :: root in c.procedures ==> hash(c.procedures[root].code) == root)
  }

  /** Every entry of the smaller cache is in the larger one. */
  ghost predicate Extends(c: Cache, d: Cache) {
    && (forall root :: root in c.procedures ==> root in d.procedures && d.procedures[root] == c.procedures[root])
    && (forall id :: id in c.ids ==> id in d.ids && d.ids[id] == c.ids[id])
    && (forall a :: a in c.aliases ==> a in d.aliases && d.aliases[a] == c.aliases[a])
  }

  /** The procedure an id or alias stands for. */
  ghost function Lookup(hash: Hash, c: Cache, id: ProcId): Option<Procedure>
    requires ValidCache(hash, c)
  {
    if id in c.ids then Some(c.procedures[c.ids[id]])
    else if id in c.aliases then Some(c.procedures[c.ids[c.aliases[id]]])
    else None
  }

  function WithId(ids: map<ProcId, Digest>, id: Option<ProcId>, root: Digest): map<ProcId, Digest> {
    match id
    case Some(i) => ids[i := root]
    case None => ids
  }

  /** Adds a procedure; a procedure already cached under the same root is kept. */
  function Inserted(hash: Hash, c: Cache, proc: Procedure, id: Option<ProcId>): Result<Cache, AssemblyError> {
    var root := hash(proc.code);
    if id.Some? && Contains(c, id.value) then Err(DuplicateProcId)
    else if root in c.procedures then
      if proc.numLocals != c.procedures[root].numLocals then Err(ConflictingNumLocals)
      else Ok(c.(ids := WithId(c.ids, id, root)))
    else
      Ok(c.(procedures := c.procedures[root := proc], ids := WithId(c.ids, id, root)))
  }

  /** The id behind an id or alias. */
  function Direct(c: Cache, id: ProcId): ProcId
    requires Contains(c, id)
  {
    if id in c.ids then id else c.aliases[id]
  }

  function Aliased(c: Cache, alias: ProcId, id: ProcId): Result<Cache, AssemblyError>
    requires Contains(c, id)
  {
    if Contains(c, alias) then Err(DuplicateProcId)
    else Ok(c.(aliases := c.aliases[alias := Direct(c, id)]))
  }

  lemma InsertedValid(hash: Hash, c: Cache, proc: Procedure, id: Option<ProcId>)
    requires ValidCache(hash, c)
    ensures var r := Inserted(hash, c, proc, id);
            r.Ok? ==> ValidCache(hash, r.value) && Extends(c, r.value) && hash(proc.code) in r.value.procedures
  {
  }

  lemma AliasedValid(hash: Hash, c: Cache, alias: ProcId, id: ProcId)
    requires ValidCache(hash, c) && Contains(c, id)
    ensures var r := Aliased(c, alias, id);
            r.Ok? ==>
              && ValidCache(hash, r.value) && Extends(c, r.value)
              && Lookup(hash, r.value, alias) == Lookup(hash, c, id)
  {
  }

  /** An id that resolves keeps resolving to the same procedure as the cache grows. */
  lemma LookupStable(hash: Hash, c: Cache, d: Cache, id: ProcId)
    requires ValidCache(hash, c) && ValidCache(hash, d) && Extends(c, d)
    ensures Contains(c, id) <==> Lookup(hash, c, id).Some?
    ensures Contains(c, id) ==> Lookup(hash, d, id) == Lookup(hash, c, id)
  {
  }

  // Runs of the cache

  datatype CacheOp = Insert(proc: Procedure, id: Option<ProcId>) | Alias(alias: ProcId, target: ProcId)

  /** One request; a refused one, or an alias of an unknown id, changes nothing. */
  function Apply(hash: Hash, c: Cache, op: CacheOp): Cache {
    match op
    case Insert(proc, id) =>
      (match Inserted(hash, c, proc, id)
       case Ok(d) => d
       case Err(_) => c)
    case Alias(alias, target) =>
      if !Contains(c, target) then c
      else
        match Aliased(c, alias, target)
        case Ok(d) => d
        case Err(_) => c
  }

  function ApplyAll(hash: Hash, c: Cache, ops: seq<CacheOp>): Cache {
    if ops == [] then c else Apply(hash, ApplyAll(hash, c, ops[..|ops| - 1]), ops[|ops| - 1])
  }

  /** Every run keeps the cache valid and only adds to it. */
  lemma {:induction false} RunValid(hash: Hash, c: Cache, ops: seq<CacheOp>)
    requires ValidCache(hash, c)
    ensures ValidCache(hash, ApplyAll(hash, c, ops))
    ensures Extends(c, ApplyAll(hash, c, ops))
  {
    if ops != [] {
      var init, last := ops[..|ops| - 1], ops[|ops| - 1];
      RunValid(hash, c, init);
      var d := ApplyAll(hash, c, init);
      match last
      case Insert(proc, id) =>
        InsertedValid(hash, d, proc, id);
      case Alias(alias, target) =>
        if Contains(d, target) {
          AliasedValid(hash, d, alias, target);
        }
    }
  }

  lemma {:induction false} ApplyAllConcat(hash: Hash, c: Cache, xs: seq<CacheOp>, ys: seq<CacheOp>)
    ensures ApplyAll(hash, c, xs + ys) == ApplyAll(hash, ApplyAll(hash, c, xs), ys)
  {
    if ys == [] {
      assert xs + ys == xs;
    } else {
      assert (xs + ys)[..|xs + ys| - 1] == xs + ys[..|ys| - 1];
      ApplyAllConcat(hash, c, xs, ys[..|ys| - 1]);
    }
  }

  /** What a longer run leads to extends what a shorter one leads to. */
  lemma LongerRunExtends(hash: Hash, xs: seq<CacheOp>, ys: seq<CacheOp>)
    requires xs <= ys
    ensures ValidCache(hash, ApplyAll(hash, EMPTY_CACHE, xs)) && ValidCache(hash, ApplyAll(hash, EMPTY_CACHE, ys))
    ensures Extends(ApplyAll(hash, EMPTY_CACHE, xs), ApplyAll(hash, EMPTY_CACHE, ys))
  {
    var rest := ys[|xs|..];
    assert ys == xs + rest;
    RunValid(hash, EMPTY_CACHE, xs);
    ApplyAllConcat(hash, EMPTY_CACHE, xs, rest);
    RunValid(hash, ApplyAll(hash, EMPTY_CACHE, xs), rest);
  }

  /** From an empty cache, whatever a run resolves, it resolves to the same procedure forever. */
  lemma ResolvedForever(hash: Hash, xs: seq<CacheOp>, ys: seq<CacheOp>, id: ProcId)
    ensures ValidCache(hash, ApplyAll(hash, EMPTY_CACHE, xs)) && ValidCache(hash, ApplyAll(hash, EMPTY_CACHE, xs + ys))
    ensures var p := Lookup(hash, ApplyAll(hash, EMPTY_CACHE, xs), id);
            p.Some? ==> Lookup(hash, ApplyAll(hash, EMPTY_CACHE, xs + ys), id) == p
  {
    LongerRunExtends(hash, xs, xs + ys);
    LookupStable(hash, ApplyAll(hash, EMPTY_CACHE, xs), ApplyAll(hash, EMPTY_CACHE, xs + ys), id);
  }

  class ProcedureCache {
    const hash: Hash
    var procedures: map<Digest, Procedure>
    var procIdMap: map<ProcId, Digest>
    var procAliases: map<ProcId, ProcId>
    /** The requests granted so far. */
    ghost var log: seq<CacheOp>

    function State(): Cache
      reads this
    {
      Cache(procedures, procIdMap, procAliases)
    }

    ghost predicate Valid()
      reads this
    {
      ValidCache(hash, State()) && State() == ApplyAll(hash, EMPTY_CACHE, log)
    }

    constructor (hash: Hash)
      ensures Valid() && State() == EMPTY_CACHE && this.hash == hash && log == []
    {
      this.hash := hash;
      procedures, procIdMap, procAliases, log := map[], map[], map[], [];
    }

    /** Neither lookup by root nor by aliased id can fail once the id is known. */
    method GetById(id: ProcId) returns (r: Option<Procedure>)
      requires Valid()
      ensures r == Lookup(hash, State(), id)
      ensures r.Some? <==> id in procIdMap || id in procAliases
      ensures id in procIdMap ==> r == Some(procedures[procIdMap[id]])
      ensures id in procAliases ==> r == Some(procedures[procIdMap[procAliases[id]]])
    {
      if id in procIdMap {
        r := Some(procedures[procIdMap[id]]);
      } else if id in procAliases {
        r := Some(procedures[procIdMap[procAliases[id]]]);
      } else {
        r := None;
      }
    }

    method GetByHash(root: Digest) returns (r: Option<Procedure>)
      requires Valid()
      ensures r.Some? <==> root in procedures
      ensures r.Some? ==> r.value == procedures[root] && hash(r.value.code) == root
    {
      r := if root in procedures then Some(procedures[root]) else None;
    }

    /** Looks at direct ids only, so it has no root for an alias. */
    method GetProcRootById(id: ProcId) returns (r: Option<Digest>)
      requires Valid()
      ensures r.Some? <==> id in procIdMap
      ensures r.Some? ==> r.value == procIdMap[id] && r.value in procedures && Lookup(hash, State(), id) == Some(procedures[r.value])
    {
      r := if id in procIdMap then Some(procIdMap[id]) else None;
    }

    /**
     Refused if the id is taken, or if the root is cached with another number of locals, and for no
     other reason. What is cached already stays; a refused insert leaves the cache as it was.
     */
    method Insert(proc: NamedProcedure, id: Option<ProcId>) returns (r: Result<(), AssemblyError>)
      requires Valid()
      modifies this
      ensures Valid() && old(log) <= log
      ensures r == Err(DuplicateProcId) <==> id.Some? && (id.value in old(procIdMap) || id.value in old(procAliases))
      ensures var root := hash(proc.procedure.code);
              r == Err(ConflictingNumLocals) <==>
                && (id.None? || (id.value !in old(procIdMap) && id.value !in old(procAliases)))
                && root in old(procedures) && old(procedures)[root].numLocals != proc.procedure.numLocals
      ensures r.Ok? || r == Err(DuplicateProcId) || r == Err(ConflictingNumLocals)
      ensures var root := hash(proc.procedure.code);
              r.Ok? ==>
                && (root in old(procedures) ==> procedures == old(procedures))
                && (root !in old(procedures) ==> procedures == old(procedures)[root := proc.procedure])
                && (id.None? ==> procIdMap == old(procIdMap))
                && (id.Some? ==> procIdMap == old(procIdMap)[id.value := root])
      ensures r.Err? ==> procedures == old(procedures) && procIdMap == old(procIdMap)
      ensures procAliases == old(procAliases)
      ensures match Inserted(hash, old(State()), proc.procedure, id)
              case Ok(c) => r.Ok? && State() == c
              case Err(e) => r == Err(e) && State() == old(State())
    {
      ghost var op: CacheOp := CacheOp.Insert(proc.procedure, id);
      InsertedValid(hash, State(), proc.procedure, id);
      assert (log + [op])[..|log|] == log;
      var root := hash(proc.procedure.code);
      if id.Some? && (id.value in procIdMap || id.value in procAliases) {
        return Err(DuplicateProcId);
      }
      if root in procedures {
        if proc.procedure.numLocals != procedures[root].numLocals {
          return Err(ConflictingNumLocals);
        }
        if id.Some? {
          procIdMap := procIdMap[id.value := root];
        }
      } else {
        if id.Some? {
          procIdMap := procIdMap[id.value := root];
        }
        procedures := procedures[root := proc.procedure];
      }
      log := log + [op];
      r := Ok(());
    }

    /** The alias resolves to what the aliased id resolves to; returns that procedure's root. */
    method InsertProcAlias(alias: ProcId, target: ProcId) returns (r: Result<Digest, AssemblyError>)
      requires Valid() && (target in procIdMap || target in procAliases)
      modifies this
      ensures Valid() && old(log) <= log
      ensures r == Err(DuplicateProcId) <==> alias in old(procIdMap) || alias in old(procAliases)
      ensures r.Ok? || r == Err(DuplicateProcId)
      ensures r.Ok? && target in old(procIdMap) ==>
                r.value == old(procIdMap)[target] && procAliases == old(procAliases)[alias := target]
      ensures r.Ok? && target in old(procAliases) ==>
                && old(procAliases)[target] in old(procIdMap) && r.value == old(procIdMap)[old(procAliases)[target]]
                && procAliases == old(procAliases)[alias := old(procAliases)[target]]
      ensures r.Err? ==> procAliases == old(procAliases)
      ensures procedures == old(procedures) && procIdMap == old(procIdMap)
      ensures match Aliased(old(State()), alias, target)
              case Ok(c) =>
                && State() == c && r.Ok? && r.value in procedures
                && Lookup(hash, State(), alias) == Some(procedures[r.value])
              case Err(e) => r == Err(e) && State() == old(State())
    {
      ghost var op: CacheOp := Alias(alias, target);
      AliasedValid(hash, State(), alias, target);
      assert (log + [op])[..|log|] == log;
      if alias in procIdMap || alias in procAliases {
        return Err(DuplicateProcId);
      }
      var id := if target in procIdMap then target else procAliases[target];
      procAliases := procAliases[alias := id];
      log := log + [op];
      r := Ok(procIdMap[id]);
    }
  }
}
