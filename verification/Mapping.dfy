/** `modbus_mapping_t`: the four tables of a server, which the replies write in place. */
module MappingTables {
  import opened Bytes
  import opened Bits
  import opened Memory
  import opened Protocol

  const MAX_TABLE_SIZE := 65536

  class Mapping {
    const startBits: nat
    const startInputBits: nat
    const startRegisters: nat
    const startInputRegisters: nat
    const tabBits: array<byte>
    const tabInputBits: array<byte>
    const tabRegisters: array<word>
    const tabInputRegisters: array<word>

    ghost predicate Valid()
    {
      tabBits != tabInputBits && tabRegisters != tabInputRegisters
    }

    ghost function Tables(): Memory
      reads tabBits, tabInputBits, tabRegisters, tabInputRegisters
    {
      Memory(Table(startBits, tabBits[..]), Table(startInputBits, tabInputBits[..]),
             Table(startRegisters, tabRegisters[..]), Table(startInputRegisters, tabInputRegisters[..]))
    }

    constructor (startBits: nat, nbBits: nat, startInputBits: nat, nbInputBits: nat,
                 startRegisters: nat, nbRegisters: nat, startInputRegisters: nat, nbInputRegisters: nat)
      ensures Valid() && fresh(tabBits) && fresh(tabInputBits) && fresh(tabRegisters) && fresh(tabInputRegisters)
      ensures Tables() == Zeroed(startBits, nbBits, startInputBits, nbInputBits,
                                 startRegisters, nbRegisters, startInputRegisters, nbInputRegisters)
    {
      this.startBits, this.startInputBits := startBits, startInputBits;
      this.startRegisters, this.startInputRegisters := startRegisters, startInputRegisters;
      tabBits := new byte[nbBits](_ => 0);
      tabInputBits := new byte[nbInputBits](_ => 0);
      tabRegisters := new word[nbRegisters](_ => 0);
      tabInputRegisters := new word[nbInputRegisters](_ => 0);
      new;
      assert tabBits[..] == Blank(nbBits) && tabInputBits[..] == Blank(nbInputBits);
      assert tabRegisters[..] == Blank(nbRegisters) && tabInputRegisters[..] == Blank(nbInputRegisters);
    }
  }

  function Blank(n: nat): (z: seq<byte>)
    ensures |z| == n && forall i :: 0 <= i < n ==> z[i] == 0
  {
    seq(n, _ => 0)
  }

  /** The memory of a new mapping: every cell is zero. */
  function Zeroed(startBits: nat, nbBits: nat, startInputBits: nat, nbInputBits: nat,
                  startRegisters: nat, nbRegisters: nat, startInputRegisters: nat, nbInputRegisters: nat)
    : (m: Memory)
    ensures AllBits(m.coils.cells)
  {
    Memory(Table(startBits, Blank(nbBits)), Table(startInputBits, Blank(nbInputBits)),
           Table(startRegisters, Blank(nbRegisters)), Table(startInputRegisters, Blank(nbInputRegisters)))
  }

  /** `modbus_mapping_new_start_address`: no mapping, and an error, when a table would not fit the address space. */
  method NewMapping(startBits: nat, nbBits: nat, startInputBits: nat, nbInputBits: nat,
                    startRegisters: nat, nbRegisters: nat, startInputRegisters: nat, nbInputRegisters: nat)
    returns (mapping: Mapping?, errno: int)
    ensures mapping == null <==> nbBits > 65536 || nbInputBits > 65536 || nbRegisters > 65536
                                 || nbInputRegisters > 65536
    ensures errno == if mapping == null then EINVAL else 0
    ensures mapping != null ==>
      && fresh(mapping) && mapping.Valid()
      && mapping.tabBits.Length == nbBits && mapping.tabInputBits.Length == nbInputBits
      && mapping.tabRegisters.Length == nbRegisters && mapping.tabInputRegisters.Length == nbInputRegisters
      && (forall i :: 0 <= i < nbBits ==> mapping.tabBits[i] == 0)
      && (forall i :: 0 <= i < nbInputBits ==> mapping.tabInputBits[i] == 0)
      && (forall i :: 0 <= i < nbRegisters ==> mapping.tabRegisters[i] == 0)
      && (forall i :: 0 <= i < nbInputRegisters ==> mapping.tabInputRegisters[i] == 0)
      && mapping.Tables() == Zeroed(startBits, nbBits, startInputBits, nbInputBits,
                                    startRegisters, nbRegisters, startInputRegisters, nbInputRegisters)
  {
    if nbBits > MAX_TABLE_SIZE || nbInputBits > MAX_TABLE_SIZE
       || nbRegisters > MAX_TABLE_SIZE || nbInputRegisters > MAX_TABLE_SIZE {
      return null, EINVAL;
    }
    errno := 0;
    mapping := new Mapping(startBits, nbBits, startInputBits, nbInputBits,
                           startRegisters, nbRegisters, startInputRegisters, nbInputRegisters);
  }
}
