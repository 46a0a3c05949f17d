/** The asset record (one row of the `demirbaslar` table) and the entry form
    the user fills in to create or edit one. */
module Assets {
  import opened Wrappers
  import opened Text
  import opened Dates

  /** The ten user-supplied columns, in table order. */
  datatype Fields = Fields(
    computerName: string,  // bilgisayar_adi
    brand: string,         // bilgisayar_marka
    cpu: string,           // islemci
    ram: string,           // ram
    storage: string,       // depolama
    consumables: string,   // sarf_malzeme
    serialNo: string,      // seri_no
    assetTag: string,      // demirbas_no
    custodian: string,     // kullanici_adi
    custodyDate: string)   // zimmet_tarihi

  /** A stored row: the store-assigned `id` and creation stamp
      (`eklenme_tarihi`) around the ten user columns. */
  datatype Asset = Asset(id: nat, fields: Fields, createdAt: string)

  /** The ten searchable columns, in table order. */
  function Columns(f: Fields): (cols: seq<string>)
    ensures |cols| == 10
    ensures cols[0] == f.computerName && cols[7] == f.assetTag && cols[9] == f.custodyDate
  {
    [f.computerName, f.brand, f.cpu, f.ram, f.storage,
     f.consumables, f.serialNo, f.assetTag, f.custodian, f.custodyDate]
  }

  /** The entry form as the user left it: nine free-text boxes, untrimmed,
      and the date picker's date. */
  datatype Form = Form(
    computerName: string,
    brand: string,
    cpu: string,
    ram: string,
    storage: string,
    consumables: string,
    serialNo: string,
    assetTag: string,
    custodian: string,
    custodyDate: Date)

  /** What a date picker can hold. */
  predicate ValidForm(form: Form) {
    ValidDate(form.custodyDate)
  }

  /** Every text column has no surrounding whitespace. */
  predicate TextColumnsStripped(f: Fields) {
    && Stripped(f.computerName) && Stripped(f.brand) && Stripped(f.cpu)
    && Stripped(f.ram) && Stripped(f.storage) && Stripped(f.consumables)
    && Stripped(f.serialNo) && Stripped(f.assetTag) && Stripped(f.custodian)
  }

  /** Collects the form into column values: each text box stripped, the date
      rendered as `yyyy-MM-dd`. By `StripUnique` the `StripOf` clauses fix
      every text column to its box's stripped text. */
  function ReadForm(form: Form): (f: Fields)
    requires ValidForm(form)
    ensures TextColumnsStripped(f)
    ensures StripOf(form.computerName, f.computerName)
    ensures StripOf(form.brand, f.brand)
    ensures StripOf(form.cpu, f.cpu)
    ensures StripOf(form.ram, f.ram)
    ensures StripOf(form.storage, f.storage)
    ensures StripOf(form.consumables, f.consumables)
    ensures StripOf(form.serialNo, f.serialNo)
    ensures StripOf(form.assetTag, f.assetTag)
    ensures StripOf(form.custodian, f.custodian)
    ensures ParseIsoDate(f.custodyDate) == Some(form.custodyDate)
    ensures f.computerName == [] <==> AllSpace(form.computerName)
    ensures f.assetTag == [] <==> AllSpace(form.assetTag)
    ensures f.brand == [] <==> AllSpace(form.brand)
    ensures f.cpu == [] <==> AllSpace(form.cpu)
    ensures f.ram == [] <==> AllSpace(form.ram)
    ensures f.storage == [] <==> AllSpace(form.storage)
  {
    StripEmptyIff(form.computerName);
    StripEmptyIff(form.assetTag);
    StripEmptyIff(form.brand);
    StripEmptyIff(form.cpu);
    StripEmptyIff(form.ram);
    StripEmptyIff(form.storage);
    IsoDateRoundTrip(form.custodyDate);
    Fields(Strip(form.computerName), Strip(form.brand), Strip(form.cpu),
           Strip(form.ram), Strip(form.storage), Strip(form.consumables),
           Strip(form.serialNo), Strip(form.assetTag), Strip(form.custodian),
           IsoDate(form.custodyDate))
  }
}
