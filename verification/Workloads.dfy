// The fields of workload_t (src/core/workload.hpp) the models below use.
// Proportions are exact reals.
module Workloads {
  datatype Workload = Workload(
    name: string,
    dbRecordsCount: nat,
    recordsCount: nat,
    dbOperationsCount: nat,
    operationsCount: nat,
    upsertProportion: real,
    batchUpsertProportion: real,
    bulkLoadProportion: real,
    startKey: nat,
    valueLength: nat,
    batchUpsertMaxLength: nat,
    batchReadMaxLength: nat,
    bulkLoadMaxLength: nat,
    rangeSelectMaxLength: nat)

  // The test both the split and the worker make: the workload only inserts.
  predicate InsertOnly(w: Workload) {
    w.upsertProportion == 1.0 || w.batchUpsertProportion == 1.0 || w.bulkLoadProportion == 1.0
  }

  // The first key of a worker's upsert sequence (src/core/worker.hpp): its start
  // key when the workload only inserts, else the records count, for every thread.
  function FirstInsertKey(w: Workload): nat {
    if InsertOnly(w) then w.startKey else w.dbRecordsCount
  }
}
