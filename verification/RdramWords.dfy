/** Aligned words of the N64's memory, as both memory searches read them. */
module RdramWords {
  import opened Bytes

  const RAM_SIZE := 0x80_0000
  const WORDS := RAM_SIZE / 4

  type Ram = m: seq<byte> | |m| == RAM_SIZE witness seq(RAM_SIZE, _ => 0)

  /** Four bytes copied into a little-endian host word. */
  function WordAt(m: Ram, offset: nat): word
    requires offset + 4 <= RAM_SIZE
  {
    (m[offset] as int) + (m[offset + 1] as int) * 0x100 + (m[offset + 2] as int) * 0x1_0000 + (m[offset + 3] as int) * 0x100_0000
  }

  /** The bytes of a word, the first the least significant. */
  lemma WordBytesAre(m: Ram, o: nat)
    requires o + 4 <= RAM_SIZE
    ensures var w := WordAt(m, o);
            && w % 0x100 == m[o] as int && w / 0x100 % 0x100 == m[o + 1] as int
            && w / 0x1_0000 % 0x100 == m[o + 2] as int && w / 0x100_0000 == m[o + 3] as int
  {
    var w := WordAt(m, o);
    assert w / 0x1_0000 == m[o + 2] as int + 0x100 * (m[o + 3] as int);
    assert w / 0x100 == m[o + 1] as int + 0x100 * (m[o + 2] as int + 0x100 * (m[o + 3] as int));
  }

  /** Two words are the same exactly when their bytes are. */
  lemma SameWordIff(m: Ram, n: Ram, o: nat)
    requires o + 4 <= RAM_SIZE
    ensures WordAt(m, o) == WordAt(n, o) <==> m[o..o + 4] == n[o..o + 4]
  {
    WordBytesAre(m, o);
    WordBytesAre(n, o);
    var a, b := m[o..o + 4], n[o..o + 4];
    assert a == [m[o], m[o + 1], m[o + 2], m[o + 3]] && b == [n[o], n[o + 1], n[o + 2], n[o + 3]];
    assert a == b <==> m[o] == n[o] && m[o + 1] == n[o + 1] && m[o + 2] == n[o + 2] && m[o + 3] == n[o + 3];
    if a == b {
    } else {
      hide WordAt;
    }
  }

  predicate IsWordOffset(o: nat) { o % 4 == 0 && o + 4 <= RAM_SIZE }

  predicate Increasing(s: seq<nat>) { forall i, j :: 0 <= i < j < |s| ==> s[i] < s[j] }
}
