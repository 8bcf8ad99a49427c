/**
 * The table router of Src/index.ts: `getRequestTableName` maps a request-type
 * code to the name of the table its records are inserted into.
 */
module Router {

  import opened Wrappers

  /** The five names the router can return, spelled as the router spells them. */
  const TableNames: set<string> :=
    {"AccountRequest", "InspectionRequest", "NewLicence", "AddActivityRequest", "StampLicenseLetterRequest"}

  /** The table names declared by the storage schema (Src/Tables.ts). */
  const DeclaredTables: set<string> :=
    {"AccountRequest", "InspectionRequest", "NewLicense", "AddActivityRequest", "StampLicenseLetterRequest"}

  /** The switch over the request type; `None` stands for `undefined`. */
  function RequestTableName(requestType: int): (name: Option<string>)
    ensures name.Some? <==> 1 <= requestType <= 5
    ensures name.Some? ==> name.value in TableNames
  {
    match requestType
    case 1 => Some("AccountRequest")
    case 2 => Some("InspectionRequest")
    case 3 => Some("NewLicence")
    case 4 => Some("AddActivityRequest")
    case 5 => Some("StampLicenseLetterRequest")
    case _ => None
  }

  /** Distinct known codes are routed to distinct tables. */
  lemma RequestTableNameInjective(a: int, b: int)
    requires RequestTableName(a).Some? && RequestTableName(a) == RequestTableName(b)
    ensures a == b
  {
  }

  /** Every one of the five names is the route of exactly one code in 1..5. */
  lemma RequestTableNameOnto(name: string)
    requires name in TableNames
    ensures exists n :: 1 <= n <= 5 && RequestTableName(n) == Some(name)
  {
    if name == "AccountRequest" {
      assert RequestTableName(1) == Some(name);
    } else if name == "InspectionRequest" {
      assert RequestTableName(2) == Some(name);
    } else if name == "NewLicence" {
      assert RequestTableName(3) == Some(name);
    } else if name == "AddActivityRequest" {
      assert RequestTableName(4) == Some(name);
    } else {
      assert RequestTableName(5) == Some(name);
    }
  }

  /**
   * The router's spelling for code 3 ("NewLicence") is not a declared table
   * ("NewLicense"); every other code in 1..5 routes to a declared table.
   */
  lemma OnlyNewLicenceIsUndeclared(n: int)
    ensures (RequestTableName(n).Some? && RequestTableName(n).value !in DeclaredTables) <==> n == 3
  {
  }

  /** No routed table is the declared "NewLicense" table that the summary counts. */
  lemma NewLicenseNeverRouted(n: int)
    ensures RequestTableName(n) != Some("NewLicense")
  {
  }
}
