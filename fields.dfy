/**
 * The attribute rewrite of the anonymizer. A DICOM record is modelled as a map
 * from attribute keyword (DICOM PS3.6, section 6) to its value as text.
 */
module Fields {
  import opened Wrappers

  type Record = map<string, string>

  /** Keyword of Study Instance UID (0020,000D). */
  const StudyUid := "StudyInstanceUID"
  /** Keyword of Series Instance UID (0020,000E). */
  const SeriesUid := "SeriesInstanceUID"

  /** The value written into Patient's Age, Size and Weight. */
  const PhysicalAnon := "88"

  /** The canned values _anonymize takes as defaulted keyword arguments. */
  datatype Canned = Canned(stringAnon: string, dateAnon: string, studyId: string)

  /** string_anon='anon', date_anon='18000101', StudyID='1'. */
  const DefaultCanned := Canned("anon", "18000101", "1")

  /** What a listed attribute is overwritten with. */
  datatype Rule =
    | CallerPatientName       // the caller's PatientName
    | CallerStudyDescription  // the caller's StudyDescription
    | StudyIdRule             // the StudyID argument
    | DateRule                // date_anon
    | PhysicalRule            // the constant '88'
    | StringRule              // string_anon

  function RuleValue(rule: Rule, patientName: string, studyDescription: string, canned: Canned): string
  {
    match rule
    case CallerPatientName => patientName
    case CallerStudyDescription => studyDescription
    case StudyIdRule => canned.studyId
    case DateRule => canned.dateAnon
    case PhysicalRule => PhysicalAnon
    case StringRule => canned.stringAnon
  }

  /**
   * The guarded overwrites of _anonymize, in the order the source performs
   * them, grouped as the source's comments group them.
   */
  const FieldTable: seq<(string, Rule)> :=
    PatientEntries + DateEntries + PatientDetailEntries + ReferralEntries + StudyEntries + PhysicalEntries
      + InstitutionEntries + DeviceEntries

  const PatientEntries: seq<(string, Rule)> := [
    ("PatientName", CallerPatientName),
    ("PatientID", StringRule)
  ]

  const DateEntries: seq<(string, Rule)> := [
    ("StudyDate", DateRule),
    ("SeriesDate", DateRule),
    ("AcquisitionDate", DateRule),
    ("ContentDate", DateRule),
    ("PatientBirthDate", DateRule)
  ]

  const PatientDetailEntries: seq<(string, Rule)> := [
    ("PatientSex", StringRule),
    ("PatientBirthTime", StringRule),
    ("OtherPatientIDs", StringRule),
    ("OtherPatientNames", StringRule),
    ("EthnicGroup", StringRule),
    ("PatientComments", StringRule)
  ]

  const ReferralEntries: seq<(string, Rule)> := [
    ("ReferringPhysicianName", StringRule)
  ]

  const StudyEntries: seq<(string, Rule)> := [
    ("StudyID", StudyIdRule),
    ("AccessionNumber", StringRule),
    ("StudyDescription", CallerStudyDescription),
    ("PhysiciansOfRecord", StringRule),
    ("NameOfPhysiciansReadingStudy", StringRule),
    ("AdmittingDiagnosesDescription", StringRule)
  ]

  const PhysicalEntries: seq<(string, Rule)> := [
    ("PatientAge", PhysicalRule),
    ("PatientSize", PhysicalRule),
    ("PatientWeight", PhysicalRule),
    ("Occupation", StringRule),
    ("AdditionalPatientHistory", StringRule),
    ("PerformingPhysicianName", StringRule)
  ]

  /** ProtocolName and SeriesDescription are deliberately absent: a downstream converter keys on them. */
  const InstitutionEntries: seq<(string, Rule)> := [
    ("OperatorsName", StringRule),
    ("InstitutionName", StringRule),
    ("InstitutionAddress", StringRule),
    ("StationName", StringRule)
  ]

  const DeviceEntries: seq<(string, Rule)> := [
    ("InstitutionalDepartmentName", StringRule),
    ("DeviceSerialNumber", StringRule),
    ("DerivationDescription", StringRule),
    ("ImageComments", StringRule)
  ]

  /** The five date attributes, set to date_anon. */
  const DateFields: set<string> :=
    {"StudyDate", "SeriesDate", "AcquisitionDate", "ContentDate", "PatientBirthDate"}

  /** The three physical attributes, set to '88'. */
  const PhysicalFields: set<string> := {"PatientAge", "PatientSize", "PatientWeight"}

  /** The attributes set to string_anon. */
  const StringFields: set<string> := {
    "PatientID", "PatientSex", "PatientBirthTime", "OtherPatientIDs", "OtherPatientNames",
    "EthnicGroup", "PatientComments", "ReferringPhysicianName", "AccessionNumber",
    "PhysiciansOfRecord", "NameOfPhysiciansReadingStudy", "AdmittingDiagnosesDescription",
    "Occupation", "AdditionalPatientHistory", "PerformingPhysicianName", "OperatorsName",
    "InstitutionName", "InstitutionAddress", "StationName", "InstitutionalDepartmentName",
    "DeviceSerialNumber", "DerivationDescription", "ImageComments"}

  /** The anonymization policy by category: which rule, if any, governs a keyword. */
  function RuleFor(keyword: string): Option<Rule>
  {
    if keyword == "PatientName" then Some(CallerPatientName)
    else if keyword == "StudyDescription" then Some(CallerStudyDescription)
    else if keyword == "StudyID" then Some(StudyIdRule)
    else if keyword in DateFields then Some(DateRule)
    else if keyword in PhysicalFields then Some(PhysicalRule)
    else if keyword in StringFields then Some(StringRule)
    else None
  }

  /** Every entry of the table follows the policy for its keyword. */
  predicate FollowsPolicy(table: seq<(string, Rule)>)
  {
    table == [] || (RuleFor(table[0].0) == Some(table[0].1) && FollowsPolicy(table[1..]))
  }

  function TableKeys(table: seq<(string, Rule)>): (keys: set<string>)
    ensures forall i :: 0 <= i < |table| ==> table[i].0 in keys
  {
    if table == [] then {} else {table[0].0} + TableKeys(table[1..])
  }

  lemma FollowsPolicyConcat(a: seq<(string, Rule)>, b: seq<(string, Rule)>)
    requires FollowsPolicy(a) && FollowsPolicy(b)
    ensures FollowsPolicy(a + b)
    ensures TableKeys(a + b) == TableKeys(a) + TableKeys(b)
  {
    PolicyConcat(a, b);
    KeysConcat(a, b);
  }

  lemma {:induction false} PolicyConcat(a: seq<(string, Rule)>, b: seq<(string, Rule)>)
    requires FollowsPolicy(a) && FollowsPolicy(b)
    ensures FollowsPolicy(a + b)
  {
    if a != [] {
      assert (a + b)[1..] == a[1..] + b;
      PolicyConcat(a[1..], b);
    } else {
      assert a + b == b;
    }
  }

  lemma {:induction false} KeysConcat(a: seq<(string, Rule)>, b: seq<(string, Rule)>)
    ensures TableKeys(a + b) == TableKeys(a) + TableKeys(b)
  {
    if a != [] {
      assert (a + b)[1..] == a[1..] + b;
      KeysConcat(a[1..], b);
    } else {
      assert a + b == b;
    }
  }

  lemma PatientEntriesFollowPolicy()
    ensures FollowsPolicy(PatientEntries)
    ensures TableKeys(PatientEntries) ==
      {"PatientName", "PatientID"}
  {
  }

  lemma DateEntriesFollowPolicy()
    ensures FollowsPolicy(DateEntries)
    ensures TableKeys(DateEntries) ==
      DateFields
  {
  }

  lemma PatientDetailEntriesFollowPolicy()
    ensures FollowsPolicy(PatientDetailEntries)
    ensures TableKeys(PatientDetailEntries) ==
      {"PatientSex", "PatientBirthTime", "OtherPatientIDs", "OtherPatientNames",
       "EthnicGroup", "PatientComments"}
  {
  }

  lemma ReferralEntriesFollowPolicy()
    ensures FollowsPolicy(ReferralEntries)
    ensures TableKeys(ReferralEntries) == {"ReferringPhysicianName"}
  {
  }

  lemma StudyEntriesFollowPolicy()
    ensures FollowsPolicy(StudyEntries)
    ensures TableKeys(StudyEntries) ==
      {"StudyID", "AccessionNumber", "StudyDescription", "PhysiciansOfRecord",
       "NameOfPhysiciansReadingStudy", "AdmittingDiagnosesDescription"}
  {
  }

  lemma PhysicalEntriesFollowPolicy()
    ensures FollowsPolicy(PhysicalEntries)
    ensures TableKeys(PhysicalEntries) ==
      {"PatientAge", "PatientSize", "PatientWeight", "Occupation",
       "AdditionalPatientHistory", "PerformingPhysicianName"}
  {
  }

  lemma InstitutionEntriesFollowPolicy()
    ensures FollowsPolicy(InstitutionEntries)
    ensures TableKeys(InstitutionEntries) ==
      {"OperatorsName", "InstitutionName", "InstitutionAddress", "StationName"}
  {
  }

  lemma DeviceEntriesFollowPolicy()
    ensures FollowsPolicy(DeviceEntries)
    ensures TableKeys(DeviceEntries) ==
      {"InstitutionalDepartmentName", "DeviceSerialNumber", "DerivationDescription", "ImageComments"}
  {
  }

  /** Every keyword the policy governs is listed somewhere in the table. */
  lemma PolicyKeywordsListed()
    ensures forall k :: RuleFor(k).Some? ==>
      k in {"PatientName", "PatientID"} + DateFields
        + {"PatientSex", "PatientBirthTime", "OtherPatientIDs", "OtherPatientNames",
           "EthnicGroup", "PatientComments"}
        + {"ReferringPhysicianName"}
        + {"StudyID", "AccessionNumber", "StudyDescription", "PhysiciansOfRecord",
           "NameOfPhysiciansReadingStudy", "AdmittingDiagnosesDescription"}
        + {"PatientAge", "PatientSize", "PatientWeight", "Occupation",
           "AdditionalPatientHistory", "PerformingPhysicianName"}
        + {"OperatorsName", "InstitutionName", "InstitutionAddress", "StationName"}
        + {"InstitutionalDepartmentName", "DeviceSerialNumber", "DerivationDescription", "ImageComments"}
  {
  }

  lemma TableIsSegments()
    ensures FollowsPolicy(FieldTable)
    ensures TableKeys(FieldTable) == TableKeys(PatientEntries) + TableKeys(DateEntries)
      + TableKeys(PatientDetailEntries) + TableKeys(ReferralEntries) + TableKeys(StudyEntries)
      + TableKeys(PhysicalEntries) + TableKeys(InstitutionEntries) + TableKeys(DeviceEntries)
  {
    SegmentsFollowPolicy();
    var t1 := PatientEntries + DateEntries;
    var t2 := t1 + PatientDetailEntries;
    var t3 := t2 + ReferralEntries;
    var t4 := t3 + StudyEntries;
    var t5 := t4 + PhysicalEntries;
    var t6 := t5 + InstitutionEntries;
    FollowsPolicyConcat(PatientEntries, DateEntries);
    FollowsPolicyConcat(t1, PatientDetailEntries);
    FollowsPolicyConcat(t2, ReferralEntries);
    FollowsPolicyConcat(t3, StudyEntries);
    FollowsPolicyConcat(t4, PhysicalEntries);
    FollowsPolicyConcat(t5, InstitutionEntries);
    FollowsPolicyConcat(t6, DeviceEntries);
  }

  lemma SegmentsFollowPolicy()
    ensures FollowsPolicy(PatientEntries) && FollowsPolicy(DateEntries)
    ensures FollowsPolicy(PatientDetailEntries) && FollowsPolicy(ReferralEntries)
    ensures FollowsPolicy(StudyEntries) && FollowsPolicy(PhysicalEntries)
    ensures FollowsPolicy(InstitutionEntries) && FollowsPolicy(DeviceEntries)
  {
    PatientEntriesFollowPolicy();
    DateEntriesFollowPolicy();
    PatientDetailEntriesFollowPolicy();
    ReferralEntriesFollowPolicy();
    StudyEntriesFollowPolicy();
    PhysicalEntriesFollowPolicy();
    InstitutionEntriesFollowPolicy();
    DeviceEntriesFollowPolicy();
  }

  /** The source-order table and the policy by category describe the same rewrite. */
  lemma TableMatchesPolicy()
    ensures FollowsPolicy(FieldTable)
    ensures forall k :: RuleFor(k).Some? <==> k in TableKeys(FieldTable)
  {
    TableIsSegments();
    PatientEntriesFollowPolicy();
    DateEntriesFollowPolicy();
    PatientDetailEntriesFollowPolicy();
    ReferralEntriesFollowPolicy();
    StudyEntriesFollowPolicy();
    PhysicalEntriesFollowPolicy();
    InstitutionEntriesFollowPolicy();
    DeviceEntriesFollowPolicy();
    PolicyKeywordsListed();
    forall k | k in TableKeys(FieldTable) ensures RuleFor(k).Some? {
      PolicyCoversTable(FieldTable, k);
    }
  }

  lemma {:induction false} PolicyCoversTable(table: seq<(string, Rule)>, k: string)
    requires FollowsPolicy(table) && k in TableKeys(table)
    ensures RuleFor(k).Some?
  {
    if table[0].0 != k {
      PolicyCoversTable(table[1..], k);
    }
  }

  /**
   * The guarded overwrites, one per table entry and in table order:
   * `if keyword in ds: ds.keyword = value`. No attribute is ever added.
   */
  function Overwrite(ds: Record, table: seq<(string, Rule)>, patientName: string, studyDescription: string, canned: Canned): (r: Record)
    ensures r.Keys == ds.Keys
  {
    if table == [] then ds
    else
      var (keyword, rule) := table[0];
      var next := if keyword in ds then ds[keyword := RuleValue(rule, patientName, studyDescription, canned)] else ds;
      Overwrite(next, table[1..], patientName, studyDescription, canned)
  }

  /** The attribute rewrite of _anonymize (everything it does besides the UID remap and the save). */
  function AnonymizeFields(ds: Record, patientName: string, studyDescription: string, canned: Canned): (r: Record)
    ensures r.Keys == ds.Keys
  {
    Overwrite(ds, FieldTable, patientName, studyDescription, canned)
  }

  /** The value the policy prescribes for a present attribute: its rule's value, or what it already holds. */
  function PolicyValue(ds: Record, keyword: string, patientName: string, studyDescription: string, canned: Canned): string
    requires keyword in ds
  {
    match RuleFor(keyword)
    case Some(rule) => RuleValue(rule, patientName, studyDescription, canned)
    case None => ds[keyword]
  }

  lemma {:induction false} OverwriteFollowsPolicy(ds: Record, table: seq<(string, Rule)>, patientName: string, studyDescription: string, canned: Canned)
    requires FollowsPolicy(table)
    ensures forall k :: k in ds ==>
      Overwrite(ds, table, patientName, studyDescription, canned)[k] ==
        if k in TableKeys(table) then PolicyValue(ds, k, patientName, studyDescription, canned) else ds[k]
  {
    if table != [] {
      var (keyword, rule) := table[0];
      var next := if keyword in ds then ds[keyword := RuleValue(rule, patientName, studyDescription, canned)] else ds;
      OverwriteFollowsPolicy(next, table[1..], patientName, studyDescription, canned);
    }
  }

  /**
   * The rewrite keeps the record's attribute set, gives every listed attribute
   * present the value its category prescribes, and leaves every other
   * attribute as it was.
   */
  lemma AnonymizeFieldsSpec(ds: Record, patientName: string, studyDescription: string, canned: Canned)
    ensures AnonymizeFields(ds, patientName, studyDescription, canned).Keys == ds.Keys
    ensures forall k :: k in ds ==>
      AnonymizeFields(ds, patientName, studyDescription, canned)[k] == PolicyValue(ds, k, patientName, studyDescription, canned)
  {
    TableMatchesPolicy();
    OverwriteFollowsPolicy(ds, FieldTable, patientName, studyDescription, canned);
  }

  /** The category values: caller's name and description, StudyID, dates, '88', and the placeholder. */
  lemma AnonymizedValues(ds: Record, patientName: string, studyDescription: string, canned: Canned)
    ensures var r := AnonymizeFields(ds, patientName, studyDescription, canned);
      && ("PatientName" in ds ==> r["PatientName"] == patientName)
      && ("StudyDescription" in ds ==> r["StudyDescription"] == studyDescription)
      && ("StudyID" in ds ==> r["StudyID"] == canned.studyId)
      && (forall k :: k in DateFields && k in ds ==> r[k] == canned.dateAnon)
      && (forall k :: k in PhysicalFields && k in ds ==> r[k] == PhysicalAnon)
      && (forall k :: k in StringFields && k in ds ==> r[k] == canned.stringAnon)
  {
    AnonymizeFieldsSpec(ds, patientName, studyDescription, canned);
    DateCategory();
    PhysicalCategory();
    StringCategory();
  }

  lemma DateCategory()
    ensures forall k :: k in DateFields ==> RuleFor(k) == Some(DateRule)
  {
  }

  lemma PhysicalCategory()
    ensures forall k :: k in PhysicalFields ==> RuleFor(k) == Some(PhysicalRule)
  {
  }

  lemma StringCategory()
    ensures forall k :: k in StringFields ==> RuleFor(k) == Some(StringRule)
  {
    CategoriesDisjoint();
  }

  lemma CategoriesDisjoint()
    ensures StringFields !! DateFields
    ensures StringFields !! PhysicalFields
    ensures "PatientName" !in StringFields && "StudyDescription" !in StringFields && "StudyID" !in StringFields
  {
    StringsNotDates();
    StringsNotPhysical();
    StringsNotCallers();
  }

  lemma StringsNotDates()
    ensures StringFields !! DateFields
  {
  }

  lemma StringsNotPhysical()
    ensures StringFields !! PhysicalFields
  {
  }

  lemma StringsNotCallers()
    ensures "PatientName" !in StringFields && "StudyDescription" !in StringFields && "StudyID" !in StringFields
  {
  }

  /**
   * ProtocolName and SeriesDescription are kept for the downstream converter,
   * and the two UIDs are left to the remap tables.
   */
  lemma PreservedAttributes(ds: Record, patientName: string, studyDescription: string, canned: Canned)
    ensures var r := AnonymizeFields(ds, patientName, studyDescription, canned);
      && ("ProtocolName" in ds ==> r["ProtocolName"] == ds["ProtocolName"])
      && ("SeriesDescription" in ds ==> r["SeriesDescription"] == ds["SeriesDescription"])
      && (StudyUid in ds ==> r[StudyUid] == ds[StudyUid])
      && (SeriesUid in ds ==> r[SeriesUid] == ds[SeriesUid])
      && ("InstanceNumber" in ds ==> r["InstanceNumber"] == ds["InstanceNumber"])
  {
    AnonymizeFieldsSpec(ds, patientName, studyDescription, canned);
    UnlistedKeywords();
  }

  lemma UnlistedKeywords()
    ensures RuleFor("ProtocolName") == None && RuleFor("SeriesDescription") == None
    ensures RuleFor(StudyUid) == None && RuleFor(SeriesUid) == None
    ensures RuleFor("InstanceNumber") == None
  {
    UnlistedDescriptions();
    UnlistedUids();
  }

  lemma UnlistedDescriptions()
    ensures RuleFor("ProtocolName") == None && RuleFor("SeriesDescription") == None
  {
  }

  lemma UnlistedUids()
    ensures RuleFor(StudyUid) == None && RuleFor(SeriesUid) == None
    ensures RuleFor("InstanceNumber") == None
  {
  }

  /** Rewriting an already rewritten record with the same arguments changes nothing. */
  lemma AnonymizeFieldsIdempotent(ds: Record, patientName: string, studyDescription: string, canned: Canned)
    ensures var once := AnonymizeFields(ds, patientName, studyDescription, canned);
      AnonymizeFields(once, patientName, studyDescription, canned) == once
  {
    var once := AnonymizeFields(ds, patientName, studyDescription, canned);
    AnonymizeFieldsSpec(ds, patientName, studyDescription, canned);
    AnonymizeFieldsSpec(once, patientName, studyDescription, canned);
  }
}
