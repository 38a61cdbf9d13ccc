/** The bitmap of required fields that pb_decode_noinit keeps (pb_decode.c): two words of 32
    bits for the first 64 required fields of the message type.
 */
module PbSeen {
  import opened PbMessages
  import opened PbWire

  /** uint32_t as its bits, lowest first */
  type Word = w: seq<bool> | |w| == 32 witness seq(32, _ => false)

  type Words = ws: seq<Word> | |ws| == 2 witness [seq(32, _ => false), seq(32, _ => false)]

  const NO_BITS: Word := seq(32, _ => false)
  const ALL_BITS: Word := seq(32, _ => true)

  /** allbits >> (32 - n) */
  function LowOnes(n: nat): Word {
    seq(32, i => i < n)
  }

  predicate Bit(words: Words, k: nat)
    requires k < 64
  {
    words[k / 32][k % 32]
  }

  /** fields_seen[k >> 5] |= 1 << (k & 31) */
  function SetBit(words: Words, k: nat): (r: Words)
    requires k < 64
    ensures forall j: nat :: j < 64 ==> (Bit(r, j) <==> j == k || Bit(words, j))
  {
    words[k / 32 := words[k / 32][k % 32 := true]]
  }

  /** The k-th required field of the descriptor has been seen. */
  ghost predicate SeenAt(fields: seq<Field>, seen: set<nat>, k: nat) {
    exists i: nat :: i < |fields| && fields[i].htype.Required? && RequiredBefore(fields, i) == k && i in seen
  }

  ghost predicate Agrees(fields: seq<Field>, words: Words, seen: set<nat>) {
    forall k: nat :: k < 64 ==> (Bit(words, k) <==> SeenAt(fields, seen, k))
  }

  lemma NoneSeen(fields: seq<Field>)
    ensures Agrees(fields, [NO_BITS, NO_BITS], {})
  {
  }

  /** Seeing a field sets its bit, if it has one. */
  lemma SeesOne(fields: seq<Field>, words: Words, seen: set<nat>, i: nat)
    requires Agrees(fields, words, seen) && i < |fields| && fields[i].htype.Required?
    ensures var k := RequiredBefore(fields, i);
            Agrees(fields, if k < 64 then SetBit(words, k) else words, seen + {i})
  {
    hide Bit, RequiredBefore;
    forall k: nat
      ensures SeenAt(fields, seen + {i}, k) <==> k == RequiredBefore(fields, i) || SeenAt(fields, seen, k)
    {
      if SeenAt(fields, seen, k) {
        var j: nat :| j < |fields| && fields[j].htype.Required? && RequiredBefore(fields, j) == k && j in seen;
        assert j in seen + {i};
      }
      assert i in seen + {i};
    }
  }

  lemma {:induction false} RequiredGrows(fields: seq<Field>, i: nat, n: nat)
    requires i < n <= |fields|
    ensures RequiredBefore(fields, i) + (if fields[i].htype.Required? then 1 else 0) <= RequiredBefore(fields, n)
  {
    if i < n - 1 {
      RequiredGrows(fields, i, n - 1);
    }
  }

  /** Every number below the count is some required field's. */
  lemma {:induction false} Numbered(fields: seq<Field>, n: nat, k: nat) returns (i: nat)
    requires n <= |fields| && k < RequiredBefore(fields, n)
    ensures i < n && fields[i].htype.Required? && RequiredBefore(fields, i) == k
  {
    if fields[n - 1].htype.Required? && RequiredBefore(fields, n - 1) == k {
      i := n - 1;
    } else {
      i := Numbered(fields, n - 1, k);
    }
  }

  /** The bits that count say exactly whether the first 64 required fields have been seen. */
  lemma SeenByBits(fields: seq<Field>, words: Words, seen: set<nat>)
    requires Agrees(fields, words, seen)
    ensures RequiredSeen(fields, seen) <==> forall k: nat :: k < 64 && k < RequiredBefore(fields, |fields|) ==>
              Bit(words, k)
    ensures forall k: nat :: RequiredBefore(fields, |fields|) <= k < 64 ==> !Bit(words, k)
  {
    hide Bit, RequiredBefore;
    var n := RequiredBefore(fields, |fields|);
    forall i: nat | i < |fields|
      ensures fields[i].htype.Required? ==> RequiredBefore(fields, i) < n
    {
      RequiredGrows(fields, i, |fields|);
    }
    if RequiredSeen(fields, seen) {
      forall k: nat | k < 64 && k < n
        ensures Bit(words, k)
      {
        var i := Numbered(fields, |fields|, k);
        assert SeenAt(fields, seen, k);
      }
    }
    if forall k: nat :: k < 64 && k < n ==> Bit(words, k) {
      forall i: nat | i < |fields| && fields[i].htype.Required? && RequiredBefore(fields, i) < MAX_REQUIRED
        ensures i in seen
      {
        var k := RequiredBefore(fields, i);
        assert SeenAt(fields, seen, k);
        var j: nat :| j < |fields| && fields[j].htype.Required? && RequiredBefore(fields, j) == k && j in seen;
        if i < j { RequiredGrows(fields, i, j); }
        if j < i { RequiredGrows(fields, j, i); }
      }
    }
  }

  /** The end of pb_decode_noinit: whole words first, then the bits of the last one. */
  method AllSeen(words: Words, count: nat) returns (all: bool)
    requires count <= 64 && forall k: nat :: count <= k < 64 ==> !Bit(words, k)
    ensures all <==> forall k: nat :: k < count ==> Bit(words, k)
  {
    for i := 0 to count / 32
      invariant forall k: nat :: k < 32 * i ==> Bit(words, k)
    {
      if words[i] != ALL_BITS {
        WordDiffers(words, i, 32);
        return false;
      }
    }
    if count % 32 != 0 {
      if words[count / 32] != LowOnes(count % 32) {
        WordDiffers(words, count / 32, count % 32);
        return false;
      }
    }
    return true;
  }

  lemma WordDiffers(words: Words, i: nat, n: nat)
    requires i < 2 && n <= 32 && words[i] != LowOnes(n)
    requires forall k: nat :: 32 * i + n <= k < 32 * i + 32 ==> !Bit(words, k)
    ensures exists k: nat :: 32 * i <= k < 32 * i + n && !Bit(words, k)
  {
    var j :| 0 <= j < 32 && words[i][j] != LowOnes(n)[j];
    assert words[i][j] == Bit(words, 32 * i + j);
  }
}
