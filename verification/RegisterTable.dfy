/** The codec that keeps 16-, 32- and 64-bit values in the holding registers which `modbus_reply` serves, low
    word first. */
module RegisterTable {
  import opened Bytes
  import opened Packing
  import opened Backend
  import opened Server
  import opened Client
  import opened EndToEnd
  import opened Reply

  /** The value types; a FLOAT32 is its 32-bit pattern, and any other type code is invalid. */
  datatype Kind = Int16 | Uint16 | Int32 | Uint32 | Float32 | Uint64 | Invalid {
    function Words(): (n: nat)
      ensures n <= 4
    {
      match this
      case Int16 => 1
      case Uint16 => 1
      case Uint64 => 4
      case Invalid => 0
      case _ => 2
    }

    predicate Holds(v: int) {
      match this
      case Int16 => -0x8000 <= v < 0x8000
      case Uint16 => 0 <= v < 0x1_0000
      case Int32 => -0x8000_0000 <= v < 0x8000_0000
      case Uint64 => 0 <= v < 0x1_0000_0000_0000_0000
      case Invalid => false
      case _ => 0 <= v < 0x1_0000_0000
    }
  }

  /** The registers that hold a value: 16 bits at a time from the low end, a negative value as its complement. */
  function Limbs(v: int, n: nat): (words: seq<word>)
    ensures |words| == n
    decreases n
  {
    if n == 0 then [] else [v % 0x1_0000] + Limbs(v / 0x1_0000, n - 1)
  }

  function FromLimbs(words: seq<word>): nat {
    if words == [] then 0 else words[0] + 0x1_0000 * FromLimbs(words[1..])
  }

  /** The value of a type that the registers hold. */
  function FromWords(kind: Kind, words: seq<word>): int {
    var u := FromLimbs(words);
    if kind.Int16? && u >= 0x8000 then u - 0x1_0000
    else if kind.Int32? && u >= 0x8000_0000 then u - 0x1_0000_0000
    else u
  }

  lemma LimbsTwice(v: int)
    ensures Limbs(v, 2) == [v % 0x1_0000, v / 0x1_0000 % 0x1_0000]
    ensures FromLimbs(Limbs(v, 2)) == v % 0x1_0000_0000
  {
    var low, high := v % 0x1_0000, v / 0x1_0000 % 0x1_0000;
    assert Limbs(v / 0x1_0000, 1) == [high] + [];
    assert [low, high][1..] == [high] && [high][1..] == [];
    assert FromLimbs([high]) == high;
    assert FromLimbs([low, high]) == low + 0x1_0000 * FromLimbs([high]);
  }

  lemma LimbsFour(v: nat)
    ensures Limbs(v, 4) == [v % 0x1_0000, v / 0x1_0000 % 0x1_0000, v / 0x1_0000_0000 % 0x1_0000,
                            v / 0x1_0000_0000_0000 % 0x1_0000]
    ensures v < 0x1_0000_0000_0000_0000 ==> FromLimbs(Limbs(v, 4)) == v
  {
    var q := v / 0x1_0000_0000;
    LimbsTwice(v);
    LimbsTwice(q);
    assert Limbs(v, 4) == [v % 0x1_0000] + ([v / 0x1_0000 % 0x1_0000] + Limbs(v / 0x1_0000 / 0x1_0000, 2));
    assert v / 0x1_0000 / 0x1_0000 == q;
    assert q / 0x1_0000 == v / 0x1_0000_0000_0000;
    assert Limbs(v, 4)[1..][1..] == Limbs(q, 2);
  }

  /** A value is rebuilt, low word first, from the registers it was stored in. */
  lemma WordsRoundTrip(kind: Kind, v: int)
    requires kind.Holds(v)
    ensures FromWords(kind, Limbs(v, kind.Words())) == v
  {
    if kind.Words() == 1 {
      assert Limbs(v, 1)[1..] == [];
    } else if kind.Words() == 2 {
      LimbsTwice(v);
    } else {
      LimbsFour(v);
    }
  }

  /** And the registers are rebuilt from the value, whatever they hold: every pattern of words is one value of its type,
      signed for the signed types. */
  lemma PatternsRoundTrip(kind: Kind, words: seq<word>)
    requires |words| == kind.Words() && !kind.Invalid?
    ensures kind.Holds(FromWords(kind, words)) && Limbs(FromWords(kind, words), kind.Words()) == words
  {
    if |words| == 1 {
      OneWordPattern(kind, words);
    } else if |words| == 2 {
      TwoWordPattern(kind, words);
    } else {
      FourLimbs(words);
      LimbsFour(FromWords(kind, words));
      FourCut(words[0], words[1], words[2], words[3]);
      assert words == [words[0], words[1], words[2], words[3]];
    }
  }

  lemma OneWordPattern(kind: Kind, words: seq<word>)
    requires |words| == 1 == kind.Words()
    ensures kind.Holds(FromWords(kind, words)) && Limbs(FromWords(kind, words), 1) == words
  {
    OneLimb(words);
    assert Limbs(FromWords(kind, words), 1)[1..] == [];
  }

  lemma TwoWordPattern(kind: Kind, words: seq<word>)
    requires |words| == 2 == kind.Words()
    ensures kind.Holds(FromWords(kind, words)) && Limbs(FromWords(kind, words), 2) == words
  {
    TwoLimbs(words);
    LimbsTwice(FromWords(kind, words));
    TwoCut(words[0], words[1], FromWords(kind, words));
    hide Limbs, FromLimbs;
    assert words == [words[0], words[1]];
  }

  lemma TwoCut(a: int, b: int, v: int)
    requires 0 <= a < 0x1_0000 && 0 <= b < 0x1_0000
    requires v == a + 0x1_0000 * b || v == a + 0x1_0000 * b - 0x1_0000_0000
    ensures v % 0x1_0000 == a && v / 0x1_0000 % 0x1_0000 == b
  {
  }

  /** The value of each type in figures, the first word the low one. */
  lemma ValueSpelled(kind: Kind, words: seq<word>)
    requires |words| == kind.Words() && !kind.Invalid?
    ensures var v := FromWords(kind, words);
            match kind
            case Int16 => words[0] == if words[0] < 32768 then v else v + 65536
            case Uint16 => v == words[0]
            case Int32 => v == Double(words) - if words[1] < 32768 then 0 else 4294967296
            case Uint64 => v == Double(words[..2]) + 4294967296 * Double(words[2..])
            case Uint32 => v == Double(words)
            case Float32 => v == Double(words)
            case Invalid => true
  {
    if |words| == 1 {
      OneLimb(words);
    } else if |words| == 2 {
      TwoLimbs(words);
    } else {
      FourLimbs(words);
    }
  }

  function Double(words: seq<word>): nat
    requires |words| == 2
  {
    var low: int, high: int := words[0], words[1];
    low + 65536 * high
  }

  lemma FourCut(a: int, b: int, c: int, d: int)
    requires 0 <= a < 0x1_0000 && 0 <= b < 0x1_0000 && 0 <= c < 0x1_0000 && 0 <= d < 0x1_0000
    ensures var v := a + 0x1_0000 * b + 0x1_0000_0000 * c + 0x1_0000_0000_0000 * d;
            && v % 0x1_0000 == a && v / 0x1_0000 % 0x1_0000 == b && v / 0x1_0000_0000 % 0x1_0000 == c
            && v / 0x1_0000_0000_0000 % 0x1_0000 == d
  {
  }

  /** `address < start_registers || address >= start_registers + nb_registers`, negated. */
  predicate Guarded(start: nat, size: nat, address: word) {
    start <= address < start + size
  }

  /** The guard looks at the first register alone, by its Modbus address, while the table is indexed by that
      address as it is: what a caller owes is that the value's last register exists. */
  predicate FitsTable(start: nat, size: nat, address: word, kind: Kind) {
    Guarded(start, size, address) && !kind.Invalid? ==> address + kind.Words() <= size
  }

  /** The last address that the guard lets pass. */
  function LastGuarded(start: nat, size: nat): (address: word)
    requires size > 0 && start <= 0xFFFF
  {
    if start + size - 1 <= 0xFFFF then start + size - 1 else 0xFFFF
  }

  /** The guard keeps a type within the table at every address exactly when a value at the last address fits: on a
      table whose addresses all exist, when it starts at zero and the type takes one register. */
  lemma GuardSufficesIff(start: nat, size: nat, kind: Kind)
    requires size > 0 && start <= 0xFFFF && !kind.Invalid?
    ensures (forall address: word :: FitsTable(start, size, address, kind))
            <==> LastGuarded(start, size) + kind.Words() <= size
    ensures start + size <= 0x1_0000 ==>
              ((forall address: word :: FitsTable(start, size, address, kind)) <==> start == 0 && kind.Words() == 1)
  {
    assert Guarded(start, size, LastGuarded(start, size));
    assert !FitsTable(start, size, LastGuarded(start, size), kind)
           <==> LastGuarded(start, size) + kind.Words() > size;
  }

  /** Ten registers: a 32-bit value at the last one runs over the end, and so does a 16-bit value at index 15 when
      the table starts at 10. */
  lemma LastRegisterOverrun()
    ensures Guarded(0, 10, 9) && !FitsTable(0, 10, 9, Int32) && 9 + Int32.Words() == 11
    ensures Guarded(10, 10, 15) && !FitsTable(10, 10, 15, Uint16)
  {
  }

  /** `control_logic_update_to_modbus_table`. */
  method Update(m: Mapping, address: word, kind: Kind, value: int) returns (ok: bool)
    requires m.Valid() && (kind.Invalid? || kind.Holds(value))
    requires FitsTable(m.startRegisters, m.tabRegisters.Length, address, kind)
    modifies m.tabRegisters
    ensures m.Valid()
    ensures ok <==> Guarded(m.startRegisters, m.tabRegisters.Length, address) && !kind.Invalid?
    ensures ok ==> address + kind.Words() <= |old(m.Contents()).registers|
    ensures m.Contents() ==
            var t := old(m.Contents());
            if ok then t.(registers := Splice(t.registers, address, Limbs(value, kind.Words()))) else t
  {
    ghost var was := m.tabRegisters[..];
    if address < m.startRegisters || address >= m.startRegisters + m.tabRegisters.Length || kind.Invalid? {
      return false;
    }
    ok := true;
    if kind.Int16? || kind.Uint16? {
      m.tabRegisters[address] := value % 0x1_0000;
      assert Limbs(value / 0x1_0000, 0) == [];
    } else if kind.Uint64? {
      LimbsFour(value);
      m.tabRegisters[address] := value % 0x1_0000;
      m.tabRegisters[address + 1] := value / 0x1_0000 % 0x1_0000;
      m.tabRegisters[address + 2] := value / 0x1_0000_0000 % 0x1_0000;
      m.tabRegisters[address + 3] := value / 0x1_0000_0000_0000 % 0x1_0000;
    } else {
      LimbsTwice(value);
      m.tabRegisters[address] := value % 0x1_0000;
      m.tabRegisters[address + 1] := value / 0x1_0000 % 0x1_0000;
    }
    SplicedCells(was, m.tabRegisters[..], address, Limbs(value, kind.Words()));
  }

  /** `control_logic_load_from_modbus_table`. */
  method Load(m: Mapping, address: word, kind: Kind) returns (ok: bool, value: int)
    requires m.Valid() && FitsTable(m.startRegisters, m.tabRegisters.Length, address, kind)
    ensures ok <==> Guarded(m.startRegisters, m.tabRegisters.Length, address) && !kind.Invalid?
    ensures ok ==> value == FromWords(kind, m.Contents().registers[address..address + kind.Words()])
  {
    value := 0;
    if address < m.startRegisters || address >= m.startRegisters + m.tabRegisters.Length || kind.Invalid? {
      return false, value;
    }
    ok := true;
    ghost var words := m.tabRegisters[address..address + kind.Words()];
    if kind.Int16? || kind.Uint16? {
      OneLimb(words);
      value := m.tabRegisters[address];
      if kind.Int16? && value >= 0x8000 {
        value := value - 0x1_0000;
      }
    } else if kind.Uint64? {
      FourLimbs(words);
      value := Joined(m.tabRegisters[address], m.tabRegisters[address + 1])
               + 0x1_0000_0000 * Joined(m.tabRegisters[address + 2], m.tabRegisters[address + 3]);
    } else {
      TwoLimbs(words);
      value := Joined(m.tabRegisters[address], m.tabRegisters[address + 1]);
      if kind.Int32? && value >= 0x8000_0000 {
        value := value - 0x1_0000_0000;
      }
    }
  }

  /** `AppConvertUint32_16`: the first of two words is the low one. */
  function Joined(low: word, high: word): dword {
    low + 0x1_0000 * high
  }

  lemma OneLimb(words: seq<word>)
    requires |words| == 1
    ensures FromLimbs(words) == words[0]
  {
    assert words[1..] == [];
  }

  lemma TwoLimbs(words: seq<word>)
    requires |words| == 2
    ensures FromLimbs(words) == Joined(words[0], words[1])
  {
    OneLimb(words[1..]);
  }

  lemma FourLimbs(words: seq<word>)
    requires |words| == 4
    ensures FromLimbs(words) == Joined(words[0], words[1]) + 0x1_0000_0000 * Joined(words[2], words[3])
  {
    TwoLimbs(words[2..]);
    assert words[1..][1..] == words[2..];
    assert FromLimbs(words[1..]) == words[1] + 0x1_0000 * FromLimbs(words[2..]);
  }

  // ---------------------------------------------------------------------------------------------
  // Values over a whole run, and from afar

  /** Registers written at an address: an update of the table, or a client's write. */
  datatype Store = Store(address: nat, words: seq<word>)

  predicate Fits(size: nat, s: Store) {
    s.address + |s.words| <= size
  }

  predicate Apart(s: Store, address: nat, n: nat) {
    s.address + |s.words| <= address || address + n <= s.address
  }

  ghost function StoreAll(regs: seq<word>, stores: seq<Store>): (r: seq<word>)
    requires forall k | 0 <= k < |stores| :: Fits(|regs|, stores[k])
    ensures |r| == |regs|
    decreases |stores|
  {
    if stores == [] then regs
    else
      assert Fits(|regs|, stores[0]);
      StoreAll(Splice(regs, stores[0].address, stores[0].words), stores[1..])
  }

  lemma {:induction false} ApartKept(regs: seq<word>, stores: seq<Store>, address: nat, n: nat)
    requires address + n <= |regs|
    requires forall k | 0 <= k < |stores| :: Fits(|regs|, stores[k]) && Apart(stores[k], address, n)
    ensures StoreAll(regs, stores)[address..address + n] == regs[address..address + n]
    decreases |stores|
  {
    if stores != [] {
      var s := stores[0];
      assert Fits(|regs|, s) && Apart(s, address, n);
      hide Splice;
      var regs' := Splice(regs, s.address, s.words);
      assert regs'[address..address + n] == regs[address..address + n];
      ApartKept(regs', stores[1..], address, n);
    }
  }

  /** The registers after a value was stored and then any number of others, all apart from it. */
  ghost function After(regs: seq<word>, address: nat, kind: Kind, v: int, later: seq<Store>): (r: seq<word>)
    requires address + kind.Words() <= |regs| && forall k | 0 <= k < |later| :: Fits(|regs|, later[k])
    ensures |r| == |regs|
  {
    StoreAll(Splice(regs, address, Limbs(v, kind.Words())), later)
  }

  /** A stored value is loaded unchanged, whatever is stored apart from it afterwards. */
  lemma StoredIsLoaded(regs: seq<word>, address: nat, kind: Kind, v: int, later: seq<Store>)
    requires kind.Holds(v) && address + kind.Words() <= |regs|
    requires forall k | 0 <= k < |later| :: Fits(|regs|, later[k]) && Apart(later[k], address, kind.Words())
    ensures FromWords(kind, After(regs, address, kind, v, later)[address..address + kind.Words()]) == v
  {
    hide FromWords, Limbs, Splice;
    ApartKept(Splice(regs, address, Limbs(v, kind.Words())), later, address, kind.Words());
    WordsRoundTrip(kind, v);
  }

  /** A remote client that reads the registers of a stored value, over RTU or TCP, rebuilds the value low word
      first.  The register at index `address` has the Modbus address `start + address`. */
  lemma RemoteClientRebuilds(b: Backend, tId: word, slave: byte, t: Tables, address: nat, kind: Kind, v: int,
                             later: seq<Store>)
    requires kind.Holds(v) && address + kind.Words() <= |t.registers| && t.startRegisters + address < 0x1_0000
    requires forall k | 0 <= k < |later| :: Fits(|t.registers|, later[k]) && Apart(later[k], address, kind.Words())
    requires b.Rtu? ==> slave != BROADCAST_ADDRESS
    ensures var t' := t.(registers := After(t.registers, address, kind, v, later));
            var call := ReadRegistersCall(t.startRegisters + address, kind.Words());
            var (t'', outcome) := Transact(b, tId, slave, t', call);
            t'' == t' && outcome.Ok? && outcome.rc == kind.Words() && FromWords(kind, outcome.data) == v
  {
    hide FromWords, Limbs, Transact, After, Fits, Apart;
    StoredIsLoaded(t.registers, address, kind, v, later);
    var t' := t.(registers := After(t.registers, address, kind, v, later));
    TransactRefines(b, tId, slave, t', ReadRegistersCall(t.startRegisters + address, kind.Words()));
  }
}
