/**
  * Entry names: every manifest and chunk entry of an account has its own name, so an account's entries can
  * be told apart by slot, and accounts keep out of each other's way unless one is named like a chunk.
  */
module CredentialNames {
  import opened Credentials

  function Digit(d: nat): char
    requires d < 16
  {
    if d < 10 then '0' + d as char else 'a' + (d - 10) as char
  }

  /** The low `width` hexadecimal digits of `n`. */
  function Hex(n: nat, width: nat): (r: string)
    ensures |r| == width
  {
    if width == 0 then [] else Hex(n / 16, width - 1) + [Digit(n % 16)]
  }

  function Pow16(n: nat): nat {
    if n == 0 then 1 else 16 * Pow16(n - 1)
  }

  const SEPARATOR: string := ".chunk."

  function Name(account: string, slot: Slot): string {
    match slot
    case ManifestSlot => account
    case ChunkSlot(generation, index) => account + SEPARATOR + generation + ['.'] + Hex(index, 8)
  }

  /** Slots the store can hold: chunk indices are 32-bit and generations have their fixed length. */
  predicate Storable(slot: Slot) {
    slot.ChunkSlot? ==> |slot.generation| == GENERATION_LENGTH && slot.index < 0x1_0000_0000
  }

  lemma {:induction false} HexInjective(m: nat, n: nat, width: nat)
    requires m < Pow16(width) && n < Pow16(width) && Hex(m, width) == Hex(n, width)
    ensures m == n
  {
    if width > 0 {
      var a, b := Hex(m, width), Hex(n, width);
      assert a[..width - 1] == Hex(m / 16, width - 1) && b[..width - 1] == Hex(n / 16, width - 1);
      HexInjective(m / 16, n / 16, width - 1);
      assert a[width - 1] == Digit(m % 16) && b[width - 1] == Digit(n % 16);
    }
  }

  /** What a hexadecimal digit is worth. */
  function Worth(c: char): int {
    if '0' <= c <= '9' then c as int - '0' as int else c as int - 'a' as int + 10
  }

  function Value(digits: string): int {
    if digits == [] then 0 else 16 * Value(digits[..|digits| - 1]) + Worth(digits[|digits| - 1])
  }

  /** The index is written in lower-case hexadecimal, most significant digit first. */
  lemma {:induction false} HexReads(n: nat, width: nat)
    requires n < Pow16(width)
    ensures Value(Hex(n, width)) == n && forall c <- Hex(n, width) :: '0' <= c <= '9' || 'a' <= c <= 'f'
  {
    if width > 0 {
      HexReads(n / 16, width - 1);
      var digits := Hex(n, width);
      assert digits[..width - 1] == Hex(n / 16, width - 1) && digits[width - 1] == Digit(n % 16);
    }
  }

  /** A chunk's entry is named by the account, ".chunk.", the generation, a dot and the index in eight digits. */
  lemma ChunkNameParts(account: string, slot: Slot)
    requires Storable(slot) && slot.ChunkSlot?
    ensures var name, k := Name(account, slot), |account|;
            && |name| == k + 48 && name[..k] == account && name[k..k + 7] == ['.', 'c', 'h', 'u', 'n', 'k', '.']
            && name[k + 7..k + 39] == slot.generation && name[k + 39] == '.' && Value(name[k + 40..]) == slot.index
    ensures Name(account, ManifestSlot) == account
  {
    ChunkName(account, slot);
    assert Pow16(8) == 0x1_0000_0000;
    HexReads(slot.index, 8);
    assert SEPARATOR == ['.', 'c', 'h', 'u', 'n', 'k', '.'];
  }

  lemma ChunkName(account: string, slot: Slot)
    requires slot.ChunkSlot? && |slot.generation| == GENERATION_LENGTH
    ensures var name, k := Name(account, slot), |account| + |SEPARATOR|;
            && |name| == k + 41
            && name[..|account|] == account
            && name[k..k + 32] == slot.generation
            && name[k + 33..] == Hex(slot.index, 8)
  {
  }

  /** The account is itself the name of a chunk of the other account. */
  ghost predicate NamesChunkOf(account: string, other: string) {
    exists slot :: Storable(slot) && slot.ChunkSlot? && account == Name(other, slot)
  }

  /** Two entries share a name only if they are the same entry or one account is a chunk name of the other. */
  lemma NamesAreInjective(a: string, s: Slot, b: string, t: Slot)
    requires Storable(s) && Storable(t) && Name(a, s) == Name(b, t)
    ensures (a == b && s == t) || NamesChunkOf(a, b) || NamesChunkOf(b, a)
  {
    if s.ChunkSlot? {
      ChunkName(a, s);
    }
    if t.ChunkSlot? {
      ChunkName(b, t);
    }
    if s.ChunkSlot? && t.ChunkSlot? {
      assert Pow16(8) == 0x1_0000_0000;
      HexInjective(s.index, t.index, 8);
    }
  }

  ghost predicate Apart(a: string, b: string) {
    forall s, t | Storable(s) && Storable(t) && Name(a, s) == Name(b, t) :: a == b && s == t
  }

  /** The entries of two accounts never meet exactly when neither account is a chunk name of the other. */
  lemma AccountsStayApart(a: string, b: string)
    ensures Apart(a, b) <==> !NamesChunkOf(a, b) && !NamesChunkOf(b, a)
    ensures |a| == |b| ==> Apart(a, b)
  {
    if !NamesChunkOf(a, b) && !NamesChunkOf(b, a) {
      forall s, t | Storable(s) && Storable(t) && Name(a, s) == Name(b, t) ensures a == b && s == t {
        NamesAreInjective(a, s, b, t);
      }
    }
    if NamesChunkOf(a, b) {
      ChunkNameMeets(a, b);
    }
    if NamesChunkOf(b, a) {
      ChunkNameMeets(b, a);
    }
  }

  lemma ChunkNameMeets(a: string, b: string)
    requires NamesChunkOf(a, b)
    ensures !Apart(a, b) && !Apart(b, a) && |a| > |b|
  {
    var slot :| Storable(slot) && slot.ChunkSlot? && a == Name(b, slot);
    ChunkName(b, slot);
    assert Name(a, ManifestSlot) == Name(b, slot) && Storable(ManifestSlot);
  }
}
