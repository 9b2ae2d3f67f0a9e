/** The entry layout the alias table and the shadow table share. */
module AliasEntries {
  import opened Wrappers

  datatype Entry = Entry(nra: bool, prf: int, arf: int, v: bool)

  datatype EntryMod = EntryMod(nra: Option<bool>, arf: Option<int>, v: Option<bool>) {
    function Apply(e: Entry): Entry {
      Entry(nra.GetOr(e.nra), e.prf, arf.GetOr(e.arf), v.GetOr(e.v))
    }
  }

  const NO_CHANGE := EntryMod(None, None, None)
}
