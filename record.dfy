/** The extraction record and the schema template it is checked against.

    A record is the dictionary `json.loads` produces from the language
    model's answer: every value is a string or a nested dictionary. The
    template is the nested field definition with an empty string at every
    leaf; its entries keep the order of the dictionary literal. */
module Record {

  datatype Value = Str(s: string) | Obj(fields: map<string, Value>)

  /** `v.get(key, default)` on a dictionary. */
  function Get(v: Value, key: string, default: Value): (r: Value)
    requires v.Obj?
    ensures key !in v.fields ==> r == default
    ensures key in v.fields ==> r == v.fields[key]
  {
    if key in v.fields then v.fields[key] else default
  }

  /** Python truthiness: an empty string or an empty dictionary is false. */
  predicate Truthy(v: Value) {
    match v
    case Str(s) => s != ""
    case Obj(m) => m != map[]
  }

  datatype Schema = Leaf | Group(entries: seq<Entry>)
  datatype Entry = Entry(key: string, node: Schema)

  /** The date groups share one shape: day, month and year. */
  const DateGroup: Schema := Group([Entry("day", Leaf), Entry("month", Leaf), Entry("year", Leaf)])

  /** The template of the National-Insurance form: 19 top-level keys, six of
      them groups. */
  const Template: Schema := Group([
    Entry("lastName", Leaf),
    Entry("firstName", Leaf),
    Entry("idNumber", Leaf),
    Entry("gender", Leaf),
    Entry("dateOfBirth", DateGroup),
    Entry("address", Group([
      Entry("street", Leaf),
      Entry("houseNumber", Leaf),
      Entry("entrance", Leaf),
      Entry("apartment", Leaf),
      Entry("city", Leaf),
      Entry("postalCode", Leaf),
      Entry("poBox", Leaf)])),
    Entry("landlinePhone", Leaf),
    Entry("mobilePhone", Leaf),
    Entry("jobType", Leaf),
    Entry("dateOfInjury", DateGroup),
    Entry("timeOfInjury", Leaf),
    Entry("accidentLocation", Leaf),
    Entry("accidentAddress", Leaf),
    Entry("accidentDescription", Leaf),
    Entry("injuredBodyPart", Leaf),
    Entry("signature", Leaf),
    Entry("formFillingDate", DateGroup),
    Entry("formReceiptDateAtClinic", DateGroup),
    Entry("medicalInstitutionFields", Group([
      Entry("healthFundMember", Leaf),
      Entry("natureOfAccident", Leaf),
      Entry("medicalDiagnoses", Leaf)]))])
}
