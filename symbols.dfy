/** The fixed bijection between 2-bit symbols and port offsets 0..3. */
module SymbolCodec {

  /** A string made only of the characters '0' and '1'. */
  predicate IsBits(s: string) {
    forall i :: 0 <= i < |s| ==> s[i] == '0' || s[i] == '1'
  }

  /** A 2-bit symbol. */
  predicate IsSymbol(s: string) {
    |s| == 2 && IsBits(s)
  }

  /** No two keys of m share a value. */
  predicate Injective<K, V(==)>(m: map<K, V>) {
    forall k, k' :: k in m && k' in m && m[k] == m[k'] ==> k == k'
  }

  /** {v: k for k, v in m.items()}: swaps keys and values of an injective map. */
  function Invert<K, V>(m: map<K, V>): (r: map<V, K>)
    requires Injective(m)
    ensures r.Keys == m.Values
    ensures forall k :: k in m ==> m[k] in r && r[m[k]] == k
    ensures forall v :: v in r ==> r[v] in m && m[r[v]] == v
  {
    map k | k in m :: m[k] := k
  }

  /** MAPA_BITS: which port offset carries which pair of bits. */
  const SymbolToOffset: map<string, int> := map["00" := 0, "01" := 1, "10" := 2, "11" := 3]

  /** MAPA_PORTAS: the offset-to-bits map, derived from SymbolToOffset. */
  function OffsetToSymbol(): map<int, string> {
    assert Injective(SymbolToOffset);
    Invert(SymbolToOffset)
  }

  /** The keys of SymbolToOffset are exactly the 2-bit symbols and those of OffsetToSymbol
      exactly the offsets 0..3, and the two maps undo each other in both directions. */
  lemma SymbolBijection()
    ensures forall s :: s in SymbolToOffset <==> IsSymbol(s)
    ensures forall o :: o in OffsetToSymbol() <==> 0 <= o < 4
    ensures forall s :: s in SymbolToOffset ==>
      SymbolToOffset[s] in OffsetToSymbol() && OffsetToSymbol()[SymbolToOffset[s]] == s
    ensures forall o :: o in OffsetToSymbol() ==>
      OffsetToSymbol()[o] in SymbolToOffset && SymbolToOffset[OffsetToSymbol()[o]] == o
  {
    forall s | IsSymbol(s) ensures s in SymbolToOffset {
      assert s == [s[0], s[1]];
      if s[0] == '0' {
        if s[1] == '0' { assert s == "00"; } else { assert s == "01"; }
      } else {
        if s[1] == '0' { assert s == "10"; } else { assert s == "11"; }
      }
    }
    assert SymbolToOffset.Values == {0, 1, 2, 3} by {
      assert SymbolToOffset["00"] == 0 && SymbolToOffset["01"] == 1;
      assert SymbolToOffset["10"] == 2 && SymbolToOffset["11"] == 3;
    }
  }

  /** MAPA_PORTAS.get(offset, ""): the bits a datagram on that offset carries, or none. */
  function SymbolBits(offset: int): (r: string)
    ensures 0 <= offset < 4 ==> IsSymbol(r) && r in SymbolToOffset && SymbolToOffset[r] == offset
    ensures !(0 <= offset < 4) ==> r == ""
  {
    SymbolBijection();
    if offset in OffsetToSymbol() then OffsetToSymbol()[offset] else ""
  }
}
