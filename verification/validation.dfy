/** The required-field checks run before a row is inserted or updated. Both
    look at the already-stripped column values. */
module Validation {
  import opened Wrappers
  import opened Assets

  /** Which check failed. The computer name and the asset tag share one
      error: the user is told both are mandatory. */
  datatype ValidationError =
    | NameOrTagMissing
    | BrandMissing
    | CpuMissing
    | RamMissing
    | StorageMissing

  /** All six columns a new row needs are non-empty. */
  predicate Admissible(f: Fields) {
    f.computerName != [] && f.assetTag != [] && f.brand != []
    && f.cpu != [] && f.ram != [] && f.storage != []
  }

  /** The checks made before an insert, in order: name and tag together,
      then brand, cpu, ram, storage. The first failing one is reported. */
  function CheckForCreate(f: Fields): (r: Option<ValidationError>)
    ensures r.None? <==> Admissible(f)
    ensures r == Some(NameOrTagMissing) <==> f.computerName == [] || f.assetTag == []
    ensures r == Some(BrandMissing) <==>
              f.computerName != [] && f.assetTag != [] && f.brand == []
    ensures r == Some(CpuMissing) <==>
              f.computerName != [] && f.assetTag != [] && f.brand != [] && f.cpu == []
    ensures r == Some(RamMissing) <==>
              f.computerName != [] && f.assetTag != [] && f.brand != [] && f.cpu != []
              && f.ram == []
    ensures r == Some(StorageMissing) <==>
              f.computerName != [] && f.assetTag != [] && f.brand != [] && f.cpu != []
              && f.ram != [] && f.storage == []
  {
    if f.computerName == [] || f.assetTag == [] then Some(NameOrTagMissing)
    else if f.brand == [] then Some(BrandMissing)
    else if f.cpu == [] then Some(CpuMissing)
    else if f.ram == [] then Some(RamMissing)
    else if f.storage == [] then Some(StorageMissing)
    else None
  }

  /** The only check made before an update: name and tag. */
  function CheckForUpdate(f: Fields): (r: Option<ValidationError>)
    ensures r.None? <==> f.computerName != [] && f.assetTag != []
    ensures r.Some? ==> r.value == NameOrTagMissing
  {
    if f.computerName == [] || f.assetTag == [] then Some(NameOrTagMissing) else None
  }

  /** Whatever may be inserted may also be written by an update. */
  lemma CreateCheckImpliesUpdateCheck(f: Fields)
    requires CheckForCreate(f).None?
    ensures CheckForUpdate(f).None?
  {
  }

  /** The converse fails: an update may blank the brand, cpu, ram or storage
      that an insert would have insisted on. */
  lemma UpdateAcceptsBlankHardware(name: string, tag: string)
    requires name != [] && tag != []
    ensures var f := Fields(name, "", "", "", "", "", "", tag, "", "");
            CheckForUpdate(f).None? && CheckForCreate(f) == Some(BrandMissing)
  {
  }
}
