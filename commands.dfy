/**
 The registry operations a session can perform, as values, so that the
 lemmas about both registries can speak of any sequence of calls.
 `show_tasks` reads the registry without changing it and is not listed.
 */
module Commands {

  datatype Op =
    | CreateOp(description: string)
    | CompleteOp(tid: int)
    | DeleteOp(tid: int)

  predicate NoDeletes(ops: seq<Op>) {
    forall i | 0 <= i < |ops| :: !ops[i].DeleteOp?
  }
}
