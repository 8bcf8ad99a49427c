/**
 * The `/summary` handler of Src/index.ts: five per-table row counts combined
 * into one report whose `Total` is their sum.
 */
module Aggregator {

  import Router
  import opened IngestSpec

  /** The JSON object the summary endpoint returns. */
  datatype Summary = Summary(
    accountRequest: nat,
    inspectionRequest: nat,
    newLicense: nat,
    addActivityRequest: nat,
    stampLicenseLetterRequest: nat,
    total: nat)

  /** Builds the summary from the five counts, in the order the queries are issued. */
  function MakeSummary(accountRequests: nat, inspectionRequests: nat, newLicenses: nat,
                       addActivityRequests: nat, stampLicenseRequests: nat): (s: Summary)
    ensures s.accountRequest == accountRequests && s.inspectionRequest == inspectionRequests
    ensures s.newLicense == newLicenses && s.addActivityRequest == addActivityRequests
    ensures s.stampLicenseLetterRequest == stampLicenseRequests
    ensures s.total == s.accountRequest + s.inspectionRequest + s.newLicense
                       + s.addActivityRequest + s.stampLicenseLetterRequest
    ensures s.total == 0 <==> accountRequests == inspectionRequests == newLicenses
                             == addActivityRequests == stampLicenseRequests == 0
  {
    var total := accountRequests + inspectionRequests + newLicenses + addActivityRequests + stampLicenseRequests;
    Summary(accountRequests, inspectionRequests, newLicenses, addActivityRequests, stampLicenseRequests, total)
  }

  /** How many of the inserts went into the named table. */
  function CountInto(inserts: seq<InsertRow>, table: string): nat
  {
    if inserts == [] then 0
    else CountInto(inserts[..|inserts| - 1], table) + (if inserts[|inserts| - 1].table == table then 1 else 0)
  }

  /**
   * The summary of tables that were empty before the given inserts completed:
   * each count query sees the rows inserted into its declared table.
   */
  function SummaryAfter(inserts: seq<InsertRow>): Summary
  {
    MakeSummary(CountInto(inserts, "AccountRequest"), CountInto(inserts, "InspectionRequest"),
                CountInto(inserts, "NewLicense"), CountInto(inserts, "AddActivityRequest"),
                CountInto(inserts, "StampLicenseLetterRequest"))
  }

  /**
   * Over the inserts of an ingestion (all into router tables), the summary's
   * `Total` counts every insert except those into the router's "NewLicence",
   * which no count query reads.
   */
  lemma {:induction false} SummaryMissesNewLicence(inserts: seq<InsertRow>)
    requires forall x :: x in inserts ==> x.table in Router.TableNames
    ensures SummaryAfter(inserts).total + CountInto(inserts, "NewLicence") == |inserts|
    ensures SummaryAfter(inserts).newLicense == 0
  {
    if inserts != [] {
      var pre := inserts[..|inserts| - 1];
      assert forall x :: x in pre ==> x in inserts;
      SummaryMissesNewLicence(pre);
      assert inserts[|inserts| - 1] in inserts;
    }
  }
}
