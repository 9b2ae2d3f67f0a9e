/** The physical register file: one staged write per cycle, applied by `Eval`. */
module RegisterFiles {

  /** Architectural register values are 64 bits wide and wrap around. */
  type Word = bv64

  /** The value of a register file; a negative `index` means that no write is staged. */
  datatype Registers = Registers(prfs: seq<Word>, index: int, value: Word) {

    ghost predicate Valid() {
      index < |prfs|
    }

    function Set(i: int, v: Word): Registers {
      this.(index := i, value := v)
    }

    function Next(): (r: Registers)
      requires Valid()
      ensures r.Valid() && |r.prfs| == |prfs|
    {
      if index < 0 then this else this.(prfs := prfs[index := value], index := -1)
    }
  }

  class PhysicalRegisterFile {
    const prfs: array<Word>
    var writingIndex: int
    var writingValue: Word

    ghost predicate Valid()
      reads this
    {
      writingIndex < prfs.Length
    }

    ghost function Model(): (r: Registers)
      requires Valid()
      reads this, prfs
      ensures r.Valid()
    {
      Registers(prfs[..], writingIndex, writingValue)
    }

    constructor (size: nat)
      ensures Valid() && Model() == Registers(seq(size, i => 0), -1, 0) && fresh(prfs)
    {
      prfs := new Word[size](i => 0);
      writingIndex, writingValue := -1, 0;
    }

    method Get(index: nat) returns (v: Word)
      requires index < prfs.Length
      ensures v == prfs[index]
    {
      v := prfs[index];
    }

    method Set(index: nat, value: Word)
      requires Valid() && index < prfs.Length
      modifies this
      ensures Valid() && Model() == old(Model()).Set(index, value)
    {
      writingIndex, writingValue := index, value;
    }

    method Eval()
      requires Valid()
      modifies this, prfs
      ensures Valid() && Model() == old(Model()).Next()
    {
      if writingIndex < 0 { return; }
      prfs[writingIndex] := writingValue;
      writingIndex := -1;
    }
  }
}
