/**
 * The key scheme of the object store: an object's metadata lives under its
 * identifier `id`, and chunk `index` under `id|index`, the index written
 * in decimal as a JavaScript template literal renders it.
 */
module Keys {

  /** The digit character for `d`. */
  function Digit(d: nat): char
    requires d < 10
  {
    ('0' as int + d) as char
  }

  /** The value of a digit character. */
  function DigitValue(c: char): nat
    requires '0' <= c <= '9'
  {
    c as int - '0' as int
  }

  /** `${n}` for a non-negative integer: its decimal digits, most significant first. */
  function Decimal(n: nat): (s: string)
    ensures |s| >= 1
    ensures forall i :: 0 <= i < |s| ==> '0' <= s[i] <= '9'
    decreases n
  {
    if n < 10 then [Digit(n)] else Decimal(n / 10) + [Digit(n % 10)]
  }

  /** Reads a string of decimal digits back as a number. */
  function ParseDecimal(s: string): nat
    requires forall i :: 0 <= i < |s| ==> '0' <= s[i] <= '9'
    decreases |s|
  {
    if |s| == 0 then 0 else 10 * ParseDecimal(s[..|s| - 1]) + DigitValue(s[|s| - 1])
  }

  /** Reading the decimal rendering of `n` gives back `n`. */
  lemma {:induction false} DecimalRoundTrip(n: nat)
    ensures ParseDecimal(Decimal(n)) == n
    decreases n
  {
    var s := Decimal(n);
    if n < 10 {
      assert s[..0] == [];
    } else {
      DecimalRoundTrip(n / 10);
      assert s[..|s| - 1] == Decimal(n / 10);
    }
  }

  /** Different numbers are rendered differently. */
  lemma DecimalInjective(a: nat, b: nat)
    ensures Decimal(a) == Decimal(b) <==> a == b
  {
    if Decimal(a) == Decimal(b) {
      DecimalRoundTrip(a);
      DecimalRoundTrip(b);
    }
  }

  /** The key `${id}|${index}` of chunk `index` of object `id`. */
  function ChunkKey(id: string, index: nat): (key: string)
    ensures |key| > |id| && key[..|id|] == id && key[|id|] == '|'
  {
    id + "|" + Decimal(index)
  }

  /** The chunk keys of `id`, in index order: `Array(n).fill(null).map(...)`. */
  function ChunkKeys(id: string, n: nat): (keys: seq<string>)
    ensures |keys| == n
    ensures forall i :: 0 <= i < n ==> keys[i] == ChunkKey(id, i)
    ensures forall i, j :: 0 <= i < j < n ==> keys[i] != keys[j]
  {
    forall i: nat, j: nat | ChunkKey(id, i) == ChunkKey(id, j)
      ensures i == j
    {
      ChunkKeyInjective(id, i, j);
    }
    seq(n, i requires 0 <= i => ChunkKey(id, i))
  }

  /** Two chunk keys of one object are equal exactly when their indices are. */
  lemma ChunkKeyInjective(id: string, i: nat, j: nat)
    ensures ChunkKey(id, i) == ChunkKey(id, j) <==> i == j
  {
    if ChunkKey(id, i) == ChunkKey(id, j) {
      assert Decimal(i) == ChunkKey(id, i)[|id| + 1..];
      assert Decimal(j) == ChunkKey(id, j)[|id| + 1..];
      DecimalInjective(i, j);
    }
  }

  /** Every chunk key contains the separator. */
  lemma ChunkKeyHasSeparator(id: string, index: nat)
    ensures '|' in ChunkKey(id, index)
  {
    assert ChunkKey(id, index)[|id|] == '|';
  }

  /** No chunk key is an identifier that is free of the separator. */
  lemma ChunkKeyIsNotId(id: string, index: nat, other: string)
    requires '|' !in other
    ensures ChunkKey(id, index) != other
  {
    ChunkKeyHasSeparator(id, index);
  }

  /**
   * Chunk keys of two different separator-free identifiers never collide:
   * the first `|` of a chunk key sits right after its identifier.
   */
  lemma ChunkKeysDisjoint(id1: string, i: nat, id2: string, j: nat)
    requires '|' !in id1 && '|' !in id2 && id1 != id2
    ensures ChunkKey(id1, i) != ChunkKey(id2, j)
  {
    var k1, k2 := ChunkKey(id1, i), ChunkKey(id2, j);
    if |id1| < |id2| {
      assert k2[|id1|] == id2[|id1|] != '|' == k1[|id1|];
    } else if |id2| < |id1| {
      assert k1[|id2|] == id1[|id2|] != '|' == k2[|id2|];
    } else {
      assert k1[..|id1|] == id1 != id2 == k2[..|id1|];
    }
  }
}
