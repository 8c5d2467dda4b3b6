/** The chromosome table of the native side: the list read from the file,
    where a chromosome's id is its position. */
module Chroms {
  import opened Wrappers
  import opened Wire
  import opened Entries
  import opened Seqs

  /** "Unknown chromosome: <name>", and the `out_of_range` of `chroms_.at`. */
  datatype LookupError = UnknownChromosome(name: Name) | IdOutOfRange(id: u16)

  /** `Ipp::chromIdFromName`: the position of the first chromosome with this
      name, returned as a u16 (so taken modulo 2^16). */
  function ChromIdFromName(chroms: seq<Name>, name: Name): (r: Result<u16, LookupError>)
    ensures r.Err? <==> name !in chroms
    ensures r.Err? ==> r.error == UnknownChromosome(name)
    ensures r.Ok? && |chroms| < 0x1_0000 ==>
              r.value < |chroms| && chroms[r.value] == name && name !in chroms[..r.value]
  {
    if name in chroms then
      var k := FirstIndex(chroms, name);
      assert k < 0x1_0000 ==> k % 0x1_0000 == k;
      Ok(k % 0x1_0000)
    else
      Err(UnknownChromosome(name))
  }

  /** `Ipp::chromName`: the name at position `id`, if there is one. */
  function ChromName(chroms: seq<Name>, id: u16): (r: Result<Name, LookupError>)
    ensures r.Ok? <==> id < |chroms|
    ensures r.Ok? ==> r.value == chroms[id]
    ensures r.Err? ==> r.error == IdOutOfRange(id)
  {
    if id < |chroms| then Ok(chroms[id]) else Err(IdOutOfRange(id))
  }

  /** In a table of fewer than 2^16 names, as the loader produces, the id of
      a known name is its first position, and naming that id gives the name
      back. */
  lemma NameIdName(chroms: seq<Name>, name: Name)
    requires |chroms| < 0x1_0000
    requires name in chroms
    ensures ChromIdFromName(chroms, name).Ok?
    ensures var id := ChromIdFromName(chroms, name).value;
            id < |chroms| && ChromName(chroms, id) == Ok(name) && name !in chroms[..id]
  {
  }

  /** An id names a chromosome that looks back up to the same id exactly
      when no earlier position holds the same name. */
  lemma IdNameId(chroms: seq<Name>, id: u16)
    requires |chroms| < 0x1_0000
    requires id < |chroms|
    ensures ChromIdFromName(chroms, chroms[id]) == Ok(id) <==> chroms[id] !in chroms[..id]
  {
    var name := chroms[id];
    var k := ChromIdFromName(chroms, name).value;
    if k < id {
      assert chroms[..id][k] == name;
    }
  }
}
