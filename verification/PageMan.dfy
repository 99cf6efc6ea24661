/**
 The physical-page bookkeeping of kernel/src/mm/bitmap.rs: one bit per page packed in
 64-bit words (set = free) and one 8-bit reference count per page.  A word is written as the
 list of its 64 bits.  Release-build arithmetic: a count wraps at 256.
*/
module PageMans {
  import opened Prelude

  const WORD_BITS := 64
  const COUNT_MODULUS := 256

  type Word = w: seq<bool> | |w| == WORD_BITS witness seq(WORD_BITS, _ => false)

  /** How many words, counts and bytes the bookkeeping of `len` pages takes. */
  function CalcSize(len: nat): (r: (nat, nat, nat))
    ensures r.0 * WORD_BITS >= len && (r.0 > 0 ==> (r.0 - 1) * WORD_BITS < len)
    ensures r.1 == len && r.2 == r.0 * 8 + r.1
  {
    var words := (len + WORD_BITS - 1) / WORD_BITS;
    (words, len, words * 8 + len)
  }

  class PageMan {
    const words: array<Word>
    const counts: array<u8>

    /** The free bit of every page the words can describe. */
    ghost function Bits(): (s: seq<bool>)
      reads words
      ensures |s| == words.Length * WORD_BITS
    {
      seq(words.Length * WORD_BITS, pos requires 0 <= pos < words.Length * WORD_BITS reads words =>
        words[pos / WORD_BITS][pos % WORD_BITS])
    }

    ghost function Counts(): (s: seq<nat>)
      reads counts
      ensures |s| == counts.Length
      ensures forall f :: 0 <= f < |s| ==> s[f] < COUNT_MODULUS
    {
      seq(counts.Length, f requires 0 <= f < counts.Length reads counts => counts[f] as nat)
    }

    constructor (total: nat)
      ensures fresh(words) && fresh(counts)
      ensures words.Length == CalcSize(total).0 && counts.Length == total
      ensures forall f :: 0 <= f < |Bits()| ==> !Bits()[f]
      ensures forall f :: 0 <= f < total ==> Counts()[f] == 0
    {
      words := new Word[CalcSize(total).0](_ => seq(WORD_BITS, _ => false));
      counts := new u8[total](_ => 0);
    }

    method Len() returns (n: nat)
      ensures n == |Bits()|
    {
      n := words.Length * WORD_BITS;
    }

    method Get(pos: nat) returns (value: bool)
      requires pos < |Bits()|
      ensures value == Bits()[pos]
    {
      value := words[pos / WORD_BITS][pos % WORD_BITS];
    }

    method Set(pos: nat, value: bool)
      requires pos < |Bits()|
      modifies words
      ensures Bits() == old(Bits())[pos := value]
    {
      var wordPos := pos / WORD_BITS;
      var bitPos := pos % WORD_BITS;
      words[wordPos] := words[wordPos][bitPos := value];
      assert forall p :: 0 <= p < |Bits()| && p / WORD_BITS == wordPos && p % WORD_BITS == bitPos ==> p == pos;
    }

    method SetRange(l: nat, r: nat, value: bool)
      requires r <= |Bits()|
      modifies words
      ensures |Bits()| == |old(Bits())|
      ensures forall f :: 0 <= f < |Bits()| ==> Bits()[f] == if l <= f < r then value else old(Bits())[f]
    {
      var pos := l;
      while pos < r
        invariant l <= pos
        invariant |Bits()| == |old(Bits())|
        invariant forall f :: 0 <= f < |Bits()| ==> Bits()[f] == if l <= f < pos && f < r then value else old(Bits())[f]
      {
        Set(pos, value);
        pos := pos + 1;
      }
    }

    method Incref(pos: nat)
      requires pos < counts.Length
      modifies counts
      ensures Counts() == old(Counts())[pos := (old(Counts())[pos] + 1) % COUNT_MODULUS]
    {
      counts[pos] := if counts[pos] == 255 then 0 else counts[pos] + 1;
    }

    method Decref(pos: nat)
      requires pos < counts.Length
      modifies counts
      ensures Counts() == old(Counts())[pos := (old(Counts())[pos] + COUNT_MODULUS - 1) % COUNT_MODULUS]
    {
      counts[pos] := if counts[pos] == 0 then 255 else counts[pos] - 1;
    }

    method Getref(pos: nat) returns (n: u8)
      requires pos < counts.Length
      ensures n as nat == Counts()[pos]
    {
      n := counts[pos];
    }
  }
}
