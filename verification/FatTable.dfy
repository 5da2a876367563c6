/** The file allocation table as one packed number, and the three ways its entries are read. */
module FatTable {
  import opened Machine

  /** The number whose little-endian bytes these are. */
  function Little(bytes: seq<Byte>): nat {
    if bytes == [] then 0 else bytes[0] as int + 256 * Little(bytes[1..])
  }

  /** Digit k of n in a base: entry k of a table of base-sized entries packed without gaps. */
  function Digit(n: nat, base: nat, k: nat): nat
    requires base > 0
    decreases k
  {
    if k == 0 then n % base else Digit(n / base, base, k - 1)
  }

  datatype FatType = FAT12 | FAT16 | FAT32

  const ENTRY12 := 0x1000
  const ENTRY16 := 0x1_0000
  const ENTRY32 := 0x1_0000_0000
  const ENTRY28 := 0x1000_0000

  datatype Fat = Fat(kind: FatType, table: seq<Byte>, chainEnd: nat)

  /** The bytes of the entry lie inside the loaded table. */
  predicate Has(fat: Fat, cluster: nat) {
    match fat.kind
    case FAT12 => cluster + cluster / 2 + 1 < |fat.table|
    case FAT16 => 2 * cluster + 1 < |fat.table|
    case FAT32 => 4 * cluster + 3 < |fat.table|
  }

  /** The width of an entry in bits. */
  function EntryBits(kind: FatType): nat {
    match kind
    case FAT12 => 12
    case FAT16 => 16
    case FAT32 => 32
  }

  /** An entry can be read exactly when it ends inside the table. */
  lemma HasExactly(fat: Fat, k: nat)
    ensures Has(fat, k) <==> EntryBits(fat.kind) * (k + 1) <= 8 * |fat.table|
  {
  }

  function Word(table: seq<Byte>, at: nat): nat
    requires at + 1 < |table|
  {
    table[at] as int + 256 * table[at + 1] as int
  }

  /** next_cluster. */
  function NextCluster(fat: Fat, cluster: nat): nat
    requires Has(fat, cluster)
  {
    match fat.kind
    case FAT12 =>
      var value := Word(fat.table, cluster + cluster / 2);
      if cluster % 2 == 1 then value / 16 else value % 0x1000
    case FAT16 => Word(fat.table, 2 * cluster)
    case FAT32 => (Word(fat.table, 4 * cluster) + 0x1_0000 * Word(fat.table, 4 * cluster + 2)) % 0x1000_0000
  }

  /** Entry k of a table packed without gaps; the top four bits of a FAT32 entry are reserved. */
  function Entry(fat: Fat, k: nat): nat {
    match fat.kind
    case FAT12 => Digit(Little(fat.table), ENTRY12, k)
    case FAT16 => Digit(Little(fat.table), ENTRY16, k)
    case FAT32 => Digit(Little(fat.table), ENTRY32, k) % ENTRY28
  }

  lemma ThreeBytes(t: seq<Byte>)
    requires |t| >= 3
    ensures Little(t) == t[0] as int + 256 * t[1] as int + 65536 * t[2] as int + 16777216 * Little(t[3..])
  {
    assert t[1..][1..] == t[2..] && t[2..][1..] == t[3..];
  }

  /** Dropping three bytes drops two entries. */
  lemma WordBehind(t: seq<Byte>, k: nat)
    requires 2 <= k && k + k / 2 + 1 < |t|
    ensures k - 2 + (k - 2) / 2 + 1 < |t[3..]| && Word(t[3..], k - 2 + (k - 2) / 2) == Word(t, k + k / 2)
  {
  }

  lemma TwoBytes(t: seq<Byte>)
    requires |t| >= 2
    ensures Little(t) == Word(t, 0) + 65536 * Little(t[2..])
  {
    assert t[1..][1..] == t[2..];
  }

  lemma FirstEntry(w: nat, m: nat)
    ensures (w + 65536 * m) % ENTRY12 == w % ENTRY12
  {
    var q, r := w / ENTRY12, w % ENTRY12;
    assert w + 65536 * m == ENTRY12 * (q + 16 * m) + r && 0 <= r < ENTRY12;
  }

  lemma SecondEntry(a: Byte, b: Byte, c: Byte)
    ensures (a as int + 256 * b as int + 65536 * c as int) / ENTRY12 == (b as int + 256 * c as int) / 16
  {
  }

  lemma DigitUnfold(n: nat, k: nat)
    ensures Digit(n, ENTRY12, 0) == n % ENTRY12
    ensures Digit(n, ENTRY12, 1) == n / ENTRY12 % ENTRY12
    ensures k > 1 ==> Digit(n, ENTRY12, k) == Digit(n / ENTRY12 / ENTRY12, ENTRY12, k - 2)
  {
  }

  lemma {:induction false} Read12(t: seq<Byte>, k: nat)
    requires k + k / 2 + 1 < |t|
    ensures Digit(Little(t), ENTRY12, k) ==
            if k % 2 == 1 then Word(t, k + k / 2) / 16 else Word(t, k + k / 2) % 0x1000
    decreases k
  {
    DigitUnfold(Little(t), k);
    hide Digit;
    if k == 0 {
      TwoBytes(t);
      FirstEntry(Word(t, 0), Little(t[2..]));
    } else {
      ThreeBytes(t);
      var low := Word(t, 0) + 65536 * t[2] as int;
      TwoEntries(low, Little(t[3..]));
      hide Little;
      if k == 1 {
        SecondEntry(t[0], t[1], t[2]);
      } else {
        Read12(t[3..], k - 2);
        WordBehind(t, k);
      }
    }
  }

  lemma TwoEntries(low: nat, rest: nat)
    requires low < 16777216
    ensures (low + 16777216 * rest) / ENTRY12 / ENTRY12 == rest
    ensures (low + 16777216 * rest) / ENTRY12 % ENTRY12 == low / ENTRY12
  {
  }

  lemma {:induction false} Read16(t: seq<Byte>, k: nat)
    requires 2 * k + 1 < |t|
    ensures Digit(Little(t), ENTRY16, k) == Word(t, 2 * k)
    decreases k
  {
    assert t[1..][1..] == t[2..];
    assert Little(t) == Word(t, 0) + ENTRY16 * Little(t[2..]);
    if k > 0 {
      assert Little(t) / ENTRY16 == Little(t[2..]);
      Read16(t[2..], k - 1);
    }
  }

  lemma {:induction false} Read32(t: seq<Byte>, k: nat)
    requires 4 * k + 3 < |t|
    ensures Digit(Little(t), ENTRY32, k) == Word(t, 4 * k) + 0x1_0000 * Word(t, 4 * k + 2)
    decreases k
  {
    ThreeBytes(t);
    assert t[3..][1..] == t[4..];
    assert Little(t) == Word(t, 0) + 0x1_0000 * Word(t, 2) + ENTRY32 * Little(t[4..]);
    if k > 0 {
      assert Little(t) / ENTRY32 == Little(t[4..]);
      Read32(t[4..], k - 1);
    }
  }

  /** Each branch reads entry k of that table, for every k. */
  lemma NextClusterIsEntry(fat: Fat, k: nat)
    requires Has(fat, k)
    ensures NextCluster(fat, k) == Entry(fat, k)
  {
    match fat.kind
    case FAT12 => Read12(fat.table, k);
    case FAT16 => Read16(fat.table, k);
    case FAT32 => Read32(fat.table, k);
  }

  // ---- writing a FAT12 table

  /** Two entries to three bytes, a last single one to two. */
  function Pack12(entries: seq<nat>): seq<Byte>
    requires forall i :: 0 <= i < |entries| ==> entries[i] < ENTRY12
  {
    if entries == [] then []
    else if |entries| == 1 then [entries[0] % 256, entries[0] / 256]
    else
      var a, b := entries[0], entries[1];
      [a % 256, a / 256 + b % 16 * 16, b / 16] + Pack12(entries[2..])
  }

  lemma PairReadsBack(a: nat, b: nat, t: seq<Byte>)
    requires a < ENTRY12 && b < ENTRY12 && |t| >= 3
    requires t[0] == a % 256 && t[1] == a / 256 + b % 16 * 16 && t[2] == b / 16
    ensures Word(t, 0) % 0x1000 == a && Word(t, 1) / 16 == b
  {
  }

  lemma PackUnfold(entries: seq<nat>)
    requires (forall i :: 0 <= i < |entries| ==> entries[i] < ENTRY12) && |entries| > 1
    ensures var t := Pack12(entries);
            && |t| >= 3 && t[3..] == Pack12(entries[2..])
            && t[0] == entries[0] % 256 && t[1] == entries[0] / 256 + entries[1] % 16 * 16 && t[2] == entries[1] / 16
  {
    hide Pack12;
    var a, b := entries[0], entries[1];
    assert Pack12(entries) == [a % 256, a / 256 + b % 16 * 16, b / 16] + Pack12(entries[2..]) by { PackIs(entries); }
  }

  lemma PackIs(entries: seq<nat>)
    requires (forall i :: 0 <= i < |entries| ==> entries[i] < ENTRY12) && |entries| > 1
    ensures var a, b := entries[0], entries[1];
            Pack12(entries) == [a % 256, a / 256 + b % 16 * 16, b / 16] + Pack12(entries[2..])
  {
  }

  /** Every entry of a packed table is read back. */
  lemma {:induction false} Pack12ReadsBack(entries: seq<nat>, k: nat, chainEnd: nat)
    requires (forall i :: 0 <= i < |entries| ==> entries[i] < ENTRY12) && k < |entries|
    ensures var fat := Fat(FAT12, Pack12(entries), chainEnd);
            Has(fat, k) && NextCluster(fat, k) == entries[k]
    decreases k
  {
    var t := Pack12(entries);
    if |entries| > 1 {
      PackUnfold(entries);
      PairReadsBack(entries[0], entries[1], t);
      hide Pack12;
      if k > 1 {
        Pack12ReadsBack(entries[2..], k - 2, chainEnd);
        WordBehind(t, k);
      }
    }
  }
}
