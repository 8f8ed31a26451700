// The run of test-harness.cpp on the model: a MerkleTree<int> fed 5, 7, 3, 0
// and -1 in turn. Elements are formatted the way an output stream formats an
// int (decimal digits, a leading '-' when negative); the digest and the random
// source stay arbitrary.
module Scenario {
  import opened MerkleShape
  import opened MerkleTrees

  /** The character of decimal digit d. */
  function DigitChar(d: nat): (c: char)
    requires d < 10
    ensures '0' <= c <= '9' && c as int - '0' as int == d
  {
    (d + '0' as int) as char
  }

  /** The decimal digits of n, most significant first, without leading zeros. */
  function Digits(n: nat): (s: string)
    ensures 1 <= |s| && (|s| > 1 ==> s[0] != '0')
    ensures forall i :: 0 <= i < |s| ==> '0' <= s[i] <= '9'
    decreases n
  {
    if n < 10 then [DigitChar(n)] else Digits(n / 10) + [DigitChar(n % 10)]
  }

  /** toString of merkle-tree.h on an int: an optional '-', then the digits of |i|. */
  function IntToString(i: int): (s: string)
    ensures 1 <= |s| && (s[0] == '-' <==> i < 0)
  {
    if i < 0 then "-" + Digits(-i) else Digits(i)
  }

  /** The number a string of decimal digits denotes. */
  function DigitsValue(s: string): nat
    requires forall i :: 0 <= i < |s| ==> '0' <= s[i] <= '9'
  {
    if |s| == 0 then 0
    else 10 * DigitsValue(s[..|s| - 1]) + (s[|s| - 1] as int - '0' as int)
  }

  /** The int a formatted string denotes: the inverse of IntToString. */
  function ParseInt(s: string): int
    requires 1 <= |s|
    requires forall i :: 0 < i < |s| ==> '0' <= s[i] <= '9'
    requires s[0] != '-' ==> '0' <= s[0] <= '9'
  {
    if s[0] == '-' then -(DigitsValue(s[1..]) as int) else DigitsValue(s)
  }

  /** Reading the digits of n back gives n. */
  lemma {:induction false} DigitsRoundTrip(n: nat)
    ensures DigitsValue(Digits(n)) == n
    decreases n
  {
    if n >= 10 {
      var s := Digits(n);
      assert s[..|s| - 1] == Digits(n / 10);
      DigitsRoundTrip(n / 10);
    }
  }

  /** Formatting is injective: parsing the formatted int gives it back. */
  lemma IntToStringRoundTrip(i: int)
    ensures ParseInt(IntToString(i)) == i
  {
    if i < 0 {
      assert IntToString(i)[1..] == Digits(-i);
      DigitsRoundTrip(-i);
    } else {
      DigitsRoundTrip(i);
    }
  }

  /**
   * After inserting 5 and then 7 into an empty tree, the tree has two layers
   * and its root hash is H(H("5") + H("7")).
   */
  method TwoInserts(H: string -> string, Noise: int -> string) returns (digest: string)
    ensures digest == H(H("5") + H("7"))
  {
    var m := new MerkleTree<int>(H, IntToString, Noise);
    m.Insert(5);
    assert m.layers == 1 && m.elems == [5];
    m.Insert(7);
    assert m.layers == 2 && m.elems == [5, 7];
    m.RootDigest(m.left, m.right, m.prev, m.hash, m.data, m.elems, m.layers, m.size, m.root, m.end);
    TwoPadded(m);
    digest := m.hash[m.root];
  }

  /** The Merkle root over the hashes of 5 and 7, written out. */
  lemma TwoPadded(m: MerkleTree<int>)
    requires m.ToString == IntToString
    ensures MerkleRootOf(m.H, m.PaddedHashes([5, 7], 2), 2) == m.H(m.H("5") + m.H("7"))
  {
    var s := m.PaddedHashes([5, 7], 2);
    assert IntToString(5) == "5" && IntToString(7) == "7";
    assert s[..1] == [m.H("5")] && s[1..] == [m.H("7")];
  }

  /**
   * The run of test-harness.cpp: after inserting 5, 7, 3, 0 and -1 into an
   * empty tree it has four layers and five elements; the insert of 0 is the
   * only one that does not grow the tree.
   */
  method HarnessRun(H: string -> string, Noise: int -> string) returns (m: MerkleTree<int>)
    ensures fresh(m) && m.Valid() && m.H == H && m.ToString == IntToString && m.Noise == Noise
    ensures m.layers == 4 && m.size == 5 && m.elems == [5, 7, 3, 0, -1]
  {
    m := new MerkleTree<int>(H, IntToString, Noise);
    m.Insert(5);
    assert m.layers == 1 && m.elems == [5];
    m.Insert(7);
    assert m.layers == 2 && m.elems == [5, 7];
    LastThree(m);
  }

  /** The last three inserts of test-harness.cpp, into the tree holding 5 and 7. */
  method LastThree(m: MerkleTree<int>)
    requires m.Valid() && m.layers == 2 && m.size == 2 && m.elems == [5, 7]
    modifies m
    ensures m.Valid() && m.layers == 4 && m.size == 5 && m.elems == [5, 7, 3, 0, -1]
  {
    m.Insert(3);
    assert m.layers == 3 && m.elems == [5, 7, 3];
    LastTwo(m);
  }

  /** The last two inserts of test-harness.cpp, into the tree holding 5, 7 and 3. */
  method LastTwo(m: MerkleTree<int>)
    requires m.Valid() && m.layers == 3 && m.size == 3 && m.elems == [5, 7, 3]
    modifies m
    ensures m.Valid() && m.layers == 4 && m.size == 5 && m.elems == [5, 7, 3, 0, -1]
  {
    m.Insert(0);
    assert m.layers == 3 && m.elems == [5, 7, 3, 0];
    m.Insert(-1);
  }

  /**
   * The leaves after that run carry, left to right, the hashes of "5", "7",
   * "3", "0" and "-1" and then three placeholders (nodes 8, 10 and 11, in
   * order of allocation) without element.
   */
  method HarnessLeaves(H: string -> string, Noise: int -> string)
    returns (leaves: seq<string>, placeholders: seq<Option<int>>)
    ensures leaves == [H("5"), H("7"), H("3"), H("0"), H("-1"), H(Noise(8)), H(Noise(10)), H(Noise(11))]
    ensures placeholders == [None, None, None]
  {
    var m := HarnessRun(H, Noise);
    m.LeafHashesStored(m.left, m.right, m.prev, m.hash, m.data, m.elems, m.layers, m.size, m.root, m.end);
    HarnessPadded(m);
    var h, d := m.hash, m.data;
    leaves := seq(8, (j: int) requires 0 <= j < 8 => h[Leaf(4, j)]);
    assert leaves == LeafHashes(h, 0, 4);
    HarnessPlaceholders();
    assert StoredIn(m.elems, 4, d);
    assert d[Leaf(4, 5)] == d[Leaf(4, 6)] == d[Leaf(4, 7)] == None;
    placeholders := [d[8], d[10], d[11]];
  }

  /** The padded leaf hashes of the elements of test-harness.cpp, written out. */
  lemma HarnessPadded(m: MerkleTree<int>)
    requires m.ToString == IntToString
    ensures m.PaddedHashes([5, 7, 3, 0, -1], 4) ==
            [m.H("5"), m.H("7"), m.H("3"), m.H("0"), m.H("-1"), m.H(m.Noise(8)), m.H(m.Noise(10)), m.H(m.Noise(11))]
  {
    var padded := m.PaddedHashes([5, 7, 3, 0, -1], 4);
    HarnessFormatted();
    HarnessPlaceholders();
    assert padded == padded[..5] + padded[5..];
  }

  /** How the elements of test-harness.cpp are formatted. */
  lemma HarnessFormatted()
    ensures IntToString(5) == "5" && IntToString(7) == "7" && IntToString(3) == "3"
    ensures IntToString(0) == "0" && IntToString(-1) == "-1"
  {
    assert Digits(1) == "1";
  }

  /** The ids of the last three leaves of a four-layer tree, in order of allocation. */
  lemma HarnessPlaceholders()
    ensures Cap(4) == 8 && Leaf(4, 5) == 8 && Leaf(4, 6) == 10 && Leaf(4, 7) == 11
  {
    assert Size(3) == 7;
  }

  /**
   * The sixth insert after the run of test-harness.cpp fills leaf 5 (node 8).
   * The cursor step of merkle-tree.h as written then stays on that leaf, which
   * already holds the element, so a seventh insert would overwrite it; the
   * corrected step moves on to leaf 6 (node 10), which is free.
   */
  method SixthInsertCursor(H: string -> string, Noise: int -> string, x: int)
    returns (asWritten: int, corrected: int, atAsWritten: Option<int>, atCorrected: Option<int>)
    ensures asWritten == 8 && atAsWritten == Some(x)
    ensures corrected == 10 && atCorrected == None
  {
    var m := HarnessRun(H, Noise);
    m.Insert(x);
    HarnessPlaceholders();
    assert m.layers == 4 && m.elems == [5, 7, 3, 0, -1, x];
    asWritten := m.FindNextNodeAsWritten(8, 5);
    corrected := m.end;
    assert StoredIn(m.elems, 4, m.data);
    assert m.data[Leaf(4, 5)] == Some(x) && m.data[Leaf(4, 6)] == None;
    atAsWritten, atCorrected := m.data[asWritten], m.data[corrected];
  }
}
