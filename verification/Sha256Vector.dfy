/**
  What fixes the tables and functions of SHA-256: the constants are the fractional parts
  of roots of primes (FIPS 180-4, sections 4.2.2 and 5.3.3), and the three bytes "abc"
  have the digest that the standard's example gives them.
 */
module Sha256Vector {
  import opened Bytes
  import opened Sha256

  // The constants.

  const PRIMES: seq<seq<nat>> := [
    [2, 3, 5, 7, 11, 13, 17, 19],
    [23, 29, 31, 37, 41, 43, 47, 53],
    [59, 61, 67, 71, 73, 79, 83, 89],
    [97, 101, 103, 107, 109, 113, 127, 131],
    [137, 139, 149, 151, 157, 163, 167, 173],
    [179, 181, 191, 193, 197, 199, 211, 223],
    [227, 229, 233, 239, 241, 251, 257, 263],
    [269, 271, 277, 281, 283, 293, 307, 311]]

  /** The integer part of the cube root of a number below 343. */
  function WholeCubeRoot(p: nat): nat {
    if p < 8 then 1 else if p < 27 then 2 else if p < 64 then 3 else if p < 125 then 4 else if p < 216 then 5 else 6
  }

  /** `k` is the first 32 bits of the fraction of the cube root of `p`. */
  predicate CubeRoot(p: nat, k: int) {
    var x := WholeCubeRoot(p) * 0x1_0000_0000 + k;
    0 <= k < 0x1_0000_0000 && x * x * x <= p * 0x1_0000_0000_0000_0000_0000_0000 < (x + 1) * (x + 1) * (x + 1)
  }

  predicate IsCubeRoot(p: nat, k: word) {
    CubeRoot(p, k as int)
  }

  /** `h` is the first 32 bits of the fraction of the square root of `p`, whose integer part is `whole`. */
  predicate SquareRoot(p: nat, whole: nat, h: int) {
    var x := whole * 0x1_0000_0000 + h;
    0 <= h < 0x1_0000_0000 && x * x <= p * 0x1_0000_0000_0000_0000 < (x + 1) * (x + 1)
  }

  lemma ConstantsAreCubeRoots(i: nat, j: nat)
    requires i < 8 && j < 8
    ensures IsCubeRoot(PRIMES[i][j], Constant(8 * i + j))
  {
    hide IsCubeRoot, Constant;
    ConstantAt(i, j);
    match i {
      case 0 => RootsRow0(j);
      case 1 => RootsRow1(j);
      case 2 => RootsRow2(j);
      case 3 => RootsRow3(j);
      case 4 => RootsRow4(j);
      case 5 => RootsRow5(j);
      case 6 => RootsRow6(j);
      case 7 => RootsRow7(j);
    }
  }

  lemma ConstantAt(i: nat, j: nat)
    requires i < 8 && j < 8
    ensures Constant(8 * i + j) == K[i][j]
  {
    DivMod(8 * i + j, i, 8, j);
  }

  lemma RootsRow0(j: nat)
    requires j < 8
    ensures IsCubeRoot(PRIMES[0][j], K[0][j])
  {
    var row: seq<word> :=
      [0x428a2f98, 0x71374491, 0xb5c0fbcf, 0xe9b5dba5, 0x3956c25b, 0x59f111f1, 0x923f82a4, 0xab1c5ed5];
    assert PRIMES[0] == [2, 3, 5, 7, 11, 13, 17, 19];
    assert K[0] == row;
  }

  lemma RootsRow1(j: nat)
    requires j < 8
    ensures IsCubeRoot(PRIMES[1][j], K[1][j])
  {
    var row: seq<word> :=
      [0xd807aa98, 0x12835b01, 0x243185be, 0x550c7dc3, 0x72be5d74, 0x80deb1fe, 0x9bdc06a7, 0xc19bf174];
    assert PRIMES[1] == [23, 29, 31, 37, 41, 43, 47, 53];
    assert K[1] == row;
  }

  lemma RootsRow2(j: nat)
    requires j < 8
    ensures IsCubeRoot(PRIMES[2][j], K[2][j])
  {
    var row: seq<word> :=
      [0xe49b69c1, 0xefbe4786, 0x0fc19dc6, 0x240ca1cc, 0x2de92c6f, 0x4a7484aa, 0x5cb0a9dc, 0x76f988da];
    assert PRIMES[2] == [59, 61, 67, 71, 73, 79, 83, 89];
    assert K[2] == row;
  }

  lemma RootsRow3(j: nat)
    requires j < 8
    ensures IsCubeRoot(PRIMES[3][j], K[3][j])
  {
    var row: seq<word> :=
      [0x983e5152, 0xa831c66d, 0xb00327c8, 0xbf597fc7, 0xc6e00bf3, 0xd5a79147, 0x06ca6351, 0x14292967];
    assert PRIMES[3] == [97, 101, 103, 107, 109, 113, 127, 131];
    assert K[3] == row;
  }

  lemma RootsRow4(j: nat)
    requires j < 8
    ensures IsCubeRoot(PRIMES[4][j], K[4][j])
  {
    var row: seq<word> :=
      [0x27b70a85, 0x2e1b2138, 0x4d2c6dfc, 0x53380d13, 0x650a7354, 0x766a0abb, 0x81c2c92e, 0x92722c85];
    assert PRIMES[4] == [137, 139, 149, 151, 157, 163, 167, 173];
    assert K[4] == row;
  }

  lemma RootsRow5(j: nat)
    requires j < 8
    ensures IsCubeRoot(PRIMES[5][j], K[5][j])
  {
    var row: seq<word> :=
      [0xa2bfe8a1, 0xa81a664b, 0xc24b8b70, 0xc76c51a3, 0xd192e819, 0xd6990624, 0xf40e3585, 0x106aa070];
    assert PRIMES[5] == [179, 181, 191, 193, 197, 199, 211, 223];
    assert K[5] == row;
  }

  lemma RootsRow6(j: nat)
    requires j < 8
    ensures IsCubeRoot(PRIMES[6][j], K[6][j])
  {
    var row: seq<word> :=
      [0x19a4c116, 0x1e376c08, 0x2748774c, 0x34b0bcb5, 0x391c0cb3, 0x4ed8aa4a, 0x5b9cca4f, 0x682e6ff3];
    assert PRIMES[6] == [227, 229, 233, 239, 241, 251, 257, 263];
    assert K[6] == row;
  }

  lemma RootsRow7(j: nat)
    requires j < 8
    ensures IsCubeRoot(PRIMES[7][j], K[7][j])
  {
    var row: seq<word> :=
      [0x748f82ee, 0x78a5636f, 0x84c87814, 0x8cc70208, 0x90befffa, 0xa4506ceb, 0xbef9a3f7, 0xc67178f2];
    assert PRIMES[7] == [269, 271, 277, 281, 283, 293, 307, 311];
    assert K[7] == row;
  }

  lemma InitialIsSquareRoots()
    ensures SquareRoot(2, 1, INITIAL.a as int) && SquareRoot(3, 1, INITIAL.b as int)
    ensures SquareRoot(5, 2, INITIAL.c as int) && SquareRoot(7, 2, INITIAL.d as int)
    ensures SquareRoot(11, 3, INITIAL.e as int) && SquareRoot(13, 3, INITIAL.f as int)
    ensures SquareRoot(17, 4, INITIAL.g as int) && SquareRoot(19, 4, INITIAL.h as int)
  {
  }

  // The example.

  /** "abc" with its padding. */
  const BLOCK: bytes := [0x61, 0x62, 0x63, 0x80] + Zeros(59) + [0x18]

  lemma NextWord(t: nat, w2: word, w7: word, w15: word, w16: word, w: word)
    requires 16 <= t < 64
    requires Schedule(BLOCK, t - 2) == w2 && Schedule(BLOCK, t - 7) == w7
    requires Schedule(BLOCK, t - 15) == w15 && Schedule(BLOCK, t - 16) == w16
    requires Expand(w2, w7, w15, w16) == w
    ensures Schedule(BLOCK, t) == w
  {
  }

  lemma NextRound(t: nat, v: Vars, k: word, w: word, next: Vars)
    requires t < 64 && Rounds(BLOCK, INITIAL, t) == v && Constant(t) == k && Schedule(BLOCK, t) == w
    requires Round(v, k, w) == next
    ensures Rounds(BLOCK, INITIAL, t + 1) == next
  {
  }

  lemma BlockOctet(i: nat)
    requires i < 64
    ensures |BLOCK| == 64
    ensures BLOCK[i] == (if i < 4 then [0x61, 0x62, 0x63, 0x80][i] else if i == 63 then 0x18 else 0)
  {
  }

  lemma BlockEnds()
    ensures BigEndian(0, 0, 0, 0) == 0 && BigEndian(0, 0, 0, 0x18) == 0x18
    ensures BigEndian(0x61, 0x62, 0x63, 0x80) == 0x61626380
  {
  }

  /** The words of the block itself. */
  lemma BlockWords(t: nat)
    requires t < 16
    ensures Schedule(BLOCK, t) == if t == 0 then 0x61626380 else if t == 15 then 0x00000018 else 0
  {
    hide BigEndian, Expand;
    BlockEnds();
    BlockOctet(4 * t);
    BlockOctet(4 * t + 1);
    BlockOctet(4 * t + 2);
    BlockOctet(4 * t + 3);
  }

  lemma Words0()
    ensures Schedule(BLOCK, 0) == 0x61626380 && Schedule(BLOCK, 1) == 0x00000000
    ensures Schedule(BLOCK, 2) == 0x00000000 && Schedule(BLOCK, 3) == 0x00000000
    ensures Schedule(BLOCK, 4) == 0x00000000 && Schedule(BLOCK, 5) == 0x00000000
    ensures Schedule(BLOCK, 6) == 0x00000000 && Schedule(BLOCK, 7) == 0x00000000
  {
    hide Schedule;
    BlockWords(0);
    BlockWords(1);
    BlockWords(2);
    BlockWords(3);
    BlockWords(4);
    BlockWords(5);
    BlockWords(6);
    BlockWords(7);
  }

  lemma Words1()
    ensures Schedule(BLOCK, 8) == 0x00000000 && Schedule(BLOCK, 9) == 0x00000000
    ensures Schedule(BLOCK, 10) == 0x00000000 && Schedule(BLOCK, 11) == 0x00000000
    ensures Schedule(BLOCK, 12) == 0x00000000 && Schedule(BLOCK, 13) == 0x00000000
    ensures Schedule(BLOCK, 14) == 0x00000000 && Schedule(BLOCK, 15) == 0x00000018
  {
    hide Schedule;
    BlockWords(8);
    BlockWords(9);
    BlockWords(10);
    BlockWords(11);
    BlockWords(12);
    BlockWords(13);
    BlockWords(14);
    BlockWords(15);
  }

  lemma Words2()
    ensures Schedule(BLOCK, 16) == 0x61626380 && Schedule(BLOCK, 17) == 0x000f0000
    ensures Schedule(BLOCK, 18) == 0x7da86405 && Schedule(BLOCK, 19) == 0x600003c6
    ensures Schedule(BLOCK, 20) == 0x3e9d7b78 && Schedule(BLOCK, 21) == 0x0183fc00
    ensures Schedule(BLOCK, 22) == 0x12dcbfdb && Schedule(BLOCK, 23) == 0xe2e2c38e
  {
    hide Schedule;
    Words0();
    Words1();
    NextWord(16, 0x00000000, 0x00000000, 0x00000000, 0x61626380, 0x61626380);
    NextWord(17, 0x00000018, 0x00000000, 0x00000000, 0x00000000, 0x000f0000);
    NextWord(18, 0x61626380, 0x00000000, 0x00000000, 0x00000000, 0x7da86405);
    NextWord(19, 0x000f0000, 0x00000000, 0x00000000, 0x00000000, 0x600003c6);
    NextWord(20, 0x7da86405, 0x00000000, 0x00000000, 0x00000000, 0x3e9d7b78);
    NextWord(21, 0x600003c6, 0x00000000, 0x00000000, 0x00000000, 0x0183fc00);
    NextWord(22, 0x3e9d7b78, 0x00000018, 0x00000000, 0x00000000, 0x12dcbfdb);
    NextWord(23, 0x0183fc00, 0x61626380, 0x00000000, 0x00000000, 0xe2e2c38e);
  }

  lemma Words3()
    ensures Schedule(BLOCK, 24) == 0xc8215c1a && Schedule(BLOCK, 25) == 0xb73679a2
    ensures Schedule(BLOCK, 26) == 0xe5bc3909 && Schedule(BLOCK, 27) == 0x32663c5b
    ensures Schedule(BLOCK, 28) == 0x9d209d67 && Schedule(BLOCK, 29) == 0xec8726cb
    ensures Schedule(BLOCK, 30) == 0x702138a4 && Schedule(BLOCK, 31) == 0xd3b7973b
  {
    hide Schedule;
    Words1();
    Words2();
    NextWord(24, 0x12dcbfdb, 0x000f0000, 0x00000000, 0x00000000, 0xc8215c1a);
    NextWord(25, 0xe2e2c38e, 0x7da86405, 0x00000000, 0x00000000, 0xb73679a2);
    NextWord(26, 0xc8215c1a, 0x600003c6, 0x00000000, 0x00000000, 0xe5bc3909);
    NextWord(27, 0xb73679a2, 0x3e9d7b78, 0x00000000, 0x00000000, 0x32663c5b);
    NextWord(28, 0xe5bc3909, 0x0183fc00, 0x00000000, 0x00000000, 0x9d209d67);
    NextWord(29, 0x32663c5b, 0x12dcbfdb, 0x00000000, 0x00000000, 0xec8726cb);
    NextWord(30, 0x9d209d67, 0xe2e2c38e, 0x00000018, 0x00000000, 0x702138a4);
    NextWord(31, 0xec8726cb, 0xc8215c1a, 0x61626380, 0x00000018, 0xd3b7973b);
  }

  lemma Words4()
    ensures Schedule(BLOCK, 32) == 0x93f5997f && Schedule(BLOCK, 33) == 0x3b68ba73
    ensures Schedule(BLOCK, 34) == 0xaff4ffc1 && Schedule(BLOCK, 35) == 0xf10a5c62
    ensures Schedule(BLOCK, 36) == 0x0a8b3996 && Schedule(BLOCK, 37) == 0x72af830a
    ensures Schedule(BLOCK, 38) == 0x9409e33e && Schedule(BLOCK, 39) == 0x24641522
  {
    hide Schedule;
    Words2();
    Words3();
    NextWord(32, 0x702138a4, 0xb73679a2, 0x000f0000, 0x61626380, 0x93f5997f);
    NextWord(33, 0xd3b7973b, 0xe5bc3909, 0x7da86405, 0x000f0000, 0x3b68ba73);
    NextWord(34, 0x93f5997f, 0x32663c5b, 0x600003c6, 0x7da86405, 0xaff4ffc1);
    NextWord(35, 0x3b68ba73, 0x9d209d67, 0x3e9d7b78, 0x600003c6, 0xf10a5c62);
    NextWord(36, 0xaff4ffc1, 0xec8726cb, 0x0183fc00, 0x3e9d7b78, 0x0a8b3996);
    NextWord(37, 0xf10a5c62, 0x702138a4, 0x12dcbfdb, 0x0183fc00, 0x72af830a);
    NextWord(38, 0x0a8b3996, 0xd3b7973b, 0xe2e2c38e, 0x12dcbfdb, 0x9409e33e);
    NextWord(39, 0x72af830a, 0x93f5997f, 0xc8215c1a, 0xe2e2c38e, 0x24641522);
  }

  lemma Words5()
    ensures Schedule(BLOCK, 40) == 0x9f47bf94 && Schedule(BLOCK, 41) == 0xf0a64f5a
    ensures Schedule(BLOCK, 42) == 0x3e246a79 && Schedule(BLOCK, 43) == 0x27333ba3
    ensures Schedule(BLOCK, 44) == 0x0c4763f2 && Schedule(BLOCK, 45) == 0x840abf27
    ensures Schedule(BLOCK, 46) == 0x7a290d5d && Schedule(BLOCK, 47) == 0x065c43da
  {
    hide Schedule;
    Words3();
    Words4();
    NextWord(40, 0x9409e33e, 0x3b68ba73, 0xb73679a2, 0xc8215c1a, 0x9f47bf94);
    NextWord(41, 0x24641522, 0xaff4ffc1, 0xe5bc3909, 0xb73679a2, 0xf0a64f5a);
    NextWord(42, 0x9f47bf94, 0xf10a5c62, 0x32663c5b, 0xe5bc3909, 0x3e246a79);
    NextWord(43, 0xf0a64f5a, 0x0a8b3996, 0x9d209d67, 0x32663c5b, 0x27333ba3);
    NextWord(44, 0x3e246a79, 0x72af830a, 0xec8726cb, 0x9d209d67, 0x0c4763f2);
    NextWord(45, 0x27333ba3, 0x9409e33e, 0x702138a4, 0xec8726cb, 0x840abf27);
    NextWord(46, 0x0c4763f2, 0x24641522, 0xd3b7973b, 0x702138a4, 0x7a290d5d);
    NextWord(47, 0x840abf27, 0x9f47bf94, 0x93f5997f, 0xd3b7973b, 0x065c43da);
  }

  lemma Words6()
    ensures Schedule(BLOCK, 48) == 0xfb3e89cb && Schedule(BLOCK, 49) == 0xcc7617db
    ensures Schedule(BLOCK, 50) == 0xb9e66c34 && Schedule(BLOCK, 51) == 0xa9993667
    ensures Schedule(BLOCK, 52) == 0x84badedd && Schedule(BLOCK, 53) == 0xc21462bc
    ensures Schedule(BLOCK, 54) == 0x1487472c && Schedule(BLOCK, 55) == 0xb20f7a99
  {
    hide Schedule;
    Words4();
    Words5();
    NextWord(48, 0x7a290d5d, 0xf0a64f5a, 0x3b68ba73, 0x93f5997f, 0xfb3e89cb);
    NextWord(49, 0x065c43da, 0x3e246a79, 0xaff4ffc1, 0x3b68ba73, 0xcc7617db);
    NextWord(50, 0xfb3e89cb, 0x27333ba3, 0xf10a5c62, 0xaff4ffc1, 0xb9e66c34);
    NextWord(51, 0xcc7617db, 0x0c4763f2, 0x0a8b3996, 0xf10a5c62, 0xa9993667);
    NextWord(52, 0xb9e66c34, 0x840abf27, 0x72af830a, 0x0a8b3996, 0x84badedd);
    NextWord(53, 0xa9993667, 0x7a290d5d, 0x9409e33e, 0x72af830a, 0xc21462bc);
    NextWord(54, 0x84badedd, 0x065c43da, 0x24641522, 0x9409e33e, 0x1487472c);
    NextWord(55, 0xc21462bc, 0xfb3e89cb, 0x9f47bf94, 0x24641522, 0xb20f7a99);
  }

  lemma Words7()
    ensures Schedule(BLOCK, 56) == 0xef57b9cd && Schedule(BLOCK, 57) == 0xebe6b238
    ensures Schedule(BLOCK, 58) == 0x9fe3095e && Schedule(BLOCK, 59) == 0x78bc8d4b
    ensures Schedule(BLOCK, 60) == 0xa43fcf15 && Schedule(BLOCK, 61) == 0x668b2ff8
    ensures Schedule(BLOCK, 62) == 0xeeaba2cc && Schedule(BLOCK, 63) == 0x12b1edeb
  {
    hide Schedule;
    Words5();
    Words6();
    NextWord(56, 0x1487472c, 0xcc7617db, 0xf0a64f5a, 0x9f47bf94, 0xef57b9cd);
    NextWord(57, 0xb20f7a99, 0xb9e66c34, 0x3e246a79, 0xf0a64f5a, 0xebe6b238);
    NextWord(58, 0xef57b9cd, 0xa9993667, 0x27333ba3, 0x3e246a79, 0x9fe3095e);
    NextWord(59, 0xebe6b238, 0x84badedd, 0x0c4763f2, 0x27333ba3, 0x78bc8d4b);
    NextWord(60, 0x9fe3095e, 0xc21462bc, 0x840abf27, 0x0c4763f2, 0xa43fcf15);
    NextWord(61, 0x78bc8d4b, 0x1487472c, 0x7a290d5d, 0x840abf27, 0x668b2ff8);
    NextWord(62, 0xa43fcf15, 0xb20f7a99, 0x065c43da, 0x7a290d5d, 0xeeaba2cc);
    NextWord(63, 0x668b2ff8, 0xef57b9cd, 0xfb3e89cb, 0x065c43da, 0x12b1edeb);
  }

  lemma RoundConstants0()
    ensures Constant(0) == 0x428a2f98 && Constant(1) == 0x71374491
    ensures Constant(2) == 0xb5c0fbcf && Constant(3) == 0xe9b5dba5
    ensures Constant(4) == 0x3956c25b && Constant(5) == 0x59f111f1
    ensures Constant(6) == 0x923f82a4 && Constant(7) == 0xab1c5ed5
  {
  }

  lemma RoundConstants1()
    ensures Constant(8) == 0xd807aa98 && Constant(9) == 0x12835b01
    ensures Constant(10) == 0x243185be && Constant(11) == 0x550c7dc3
    ensures Constant(12) == 0x72be5d74 && Constant(13) == 0x80deb1fe
    ensures Constant(14) == 0x9bdc06a7 && Constant(15) == 0xc19bf174
  {
  }

  lemma RoundConstants2()
    ensures Constant(16) == 0xe49b69c1 && Constant(17) == 0xefbe4786
    ensures Constant(18) == 0x0fc19dc6 && Constant(19) == 0x240ca1cc
    ensures Constant(20) == 0x2de92c6f && Constant(21) == 0x4a7484aa
    ensures Constant(22) == 0x5cb0a9dc && Constant(23) == 0x76f988da
  {
  }

  lemma RoundConstants3()
    ensures Constant(24) == 0x983e5152 && Constant(25) == 0xa831c66d
    ensures Constant(26) == 0xb00327c8 && Constant(27) == 0xbf597fc7
    ensures Constant(28) == 0xc6e00bf3 && Constant(29) == 0xd5a79147
    ensures Constant(30) == 0x06ca6351 && Constant(31) == 0x14292967
  {
  }

  lemma RoundConstants4()
    ensures Constant(32) == 0x27b70a85 && Constant(33) == 0x2e1b2138
    ensures Constant(34) == 0x4d2c6dfc && Constant(35) == 0x53380d13
    ensures Constant(36) == 0x650a7354 && Constant(37) == 0x766a0abb
    ensures Constant(38) == 0x81c2c92e && Constant(39) == 0x92722c85
  {
  }

  lemma RoundConstants5()
    ensures Constant(40) == 0xa2bfe8a1 && Constant(41) == 0xa81a664b
    ensures Constant(42) == 0xc24b8b70 && Constant(43) == 0xc76c51a3
    ensures Constant(44) == 0xd192e819 && Constant(45) == 0xd6990624
    ensures Constant(46) == 0xf40e3585 && Constant(47) == 0x106aa070
  {
  }

  lemma RoundConstants6()
    ensures Constant(48) == 0x19a4c116 && Constant(49) == 0x1e376c08
    ensures Constant(50) == 0x2748774c && Constant(51) == 0x34b0bcb5
    ensures Constant(52) == 0x391c0cb3 && Constant(53) == 0x4ed8aa4a
    ensures Constant(54) == 0x5b9cca4f && Constant(55) == 0x682e6ff3
  {
  }

  lemma RoundConstants7()
    ensures Constant(56) == 0x748f82ee && Constant(57) == 0x78a5636f
    ensures Constant(58) == 0x84c87814 && Constant(59) == 0x8cc70208
    ensures Constant(60) == 0x90befffa && Constant(61) == 0xa4506ceb
    ensures Constant(62) == 0xbef9a3f7 && Constant(63) == 0xc67178f2
  {
  }

  lemma Rounds1()
    ensures Rounds(BLOCK, INITIAL, 8)
         == Vars(0x85a07b5f, 0xe5030380, 0x2b4209f5, 0x04409a6a, 0x0c657a79, 0x9b27a401, 0x714260ad, 0x43ada245)
  {
    hide Schedule, Rounds, Constant;
    NoRounds();
    Words0();
    RoundConstants0();
    var v0 := Vars(0x6a09e667, 0xbb67ae85, 0x3c6ef372, 0xa54ff53a, 0x510e527f, 0x9b05688c, 0x1f83d9ab, 0x5be0cd19);
    var v1 := Vars(0x5d6aebcd, 0x6a09e667, 0xbb67ae85, 0x3c6ef372, 0xfa2a4622, 0x510e527f, 0x9b05688c, 0x1f83d9ab);
    var v2 := Vars(0x5a6ad9ad, 0x5d6aebcd, 0x6a09e667, 0xbb67ae85, 0x78ce7989, 0xfa2a4622, 0x510e527f, 0x9b05688c);
    var v3 := Vars(0xc8c347a7, 0x5a6ad9ad, 0x5d6aebcd, 0x6a09e667, 0xf92939eb, 0x78ce7989, 0xfa2a4622, 0x510e527f);
    var v4 := Vars(0xd550f666, 0xc8c347a7, 0x5a6ad9ad, 0x5d6aebcd, 0x24e00850, 0xf92939eb, 0x78ce7989, 0xfa2a4622);
    var v5 := Vars(0x04409a6a, 0xd550f666, 0xc8c347a7, 0x5a6ad9ad, 0x43ada245, 0x24e00850, 0xf92939eb, 0x78ce7989);
    var v6 := Vars(0x2b4209f5, 0x04409a6a, 0xd550f666, 0xc8c347a7, 0x714260ad, 0x43ada245, 0x24e00850, 0xf92939eb);
    var v7 := Vars(0xe5030380, 0x2b4209f5, 0x04409a6a, 0xd550f666, 0x9b27a401, 0x714260ad, 0x43ada245, 0x24e00850);
    var v8 := Vars(0x85a07b5f, 0xe5030380, 0x2b4209f5, 0x04409a6a, 0x0c657a79, 0x9b27a401, 0x714260ad, 0x43ada245);
    NextRound(0, v0, 0x428a2f98, 0x61626380, v1);
    NextRound(1, v1, 0x71374491, 0x00000000, v2);
    NextRound(2, v2, 0xb5c0fbcf, 0x00000000, v3);
    NextRound(3, v3, 0xe9b5dba5, 0x00000000, v4);
    NextRound(4, v4, 0x3956c25b, 0x00000000, v5);
    NextRound(5, v5, 0x59f111f1, 0x00000000, v6);
    NextRound(6, v6, 0x923f82a4, 0x00000000, v7);
    NextRound(7, v7, 0xab1c5ed5, 0x00000000, v8);
  }

  lemma Rounds2()
    ensures Rounds(BLOCK, INITIAL, 16)
         == Vars(0xb0fa238e, 0xc0645fde, 0xd932eb16, 0x87912990, 0x07590dcd, 0x0b92f20c, 0x745a48de, 0x1e578218)
  {
    hide Schedule, Rounds, Constant;
    Rounds1();
    Words1();
    RoundConstants1();
    var v0 := Vars(0x85a07b5f, 0xe5030380, 0x2b4209f5, 0x04409a6a, 0x0c657a79, 0x9b27a401, 0x714260ad, 0x43ada245);
    var v1 := Vars(0x8e04ecb9, 0x85a07b5f, 0xe5030380, 0x2b4209f5, 0x32ca2d8c, 0x0c657a79, 0x9b27a401, 0x714260ad);
    var v2 := Vars(0x8c87346b, 0x8e04ecb9, 0x85a07b5f, 0xe5030380, 0x1cc92596, 0x32ca2d8c, 0x0c657a79, 0x9b27a401);
    var v3 := Vars(0x4798a3f4, 0x8c87346b, 0x8e04ecb9, 0x85a07b5f, 0x436b23e8, 0x1cc92596, 0x32ca2d8c, 0x0c657a79);
    var v4 := Vars(0xf71fc5a9, 0x4798a3f4, 0x8c87346b, 0x8e04ecb9, 0x816fd6e9, 0x436b23e8, 0x1cc92596, 0x32ca2d8c);
    var v5 := Vars(0x87912990, 0xf71fc5a9, 0x4798a3f4, 0x8c87346b, 0x1e578218, 0x816fd6e9, 0x436b23e8, 0x1cc92596);
    var v6 := Vars(0xd932eb16, 0x87912990, 0xf71fc5a9, 0x4798a3f4, 0x745a48de, 0x1e578218, 0x816fd6e9, 0x436b23e8);
    var v7 := Vars(0xc0645fde, 0xd932eb16, 0x87912990, 0xf71fc5a9, 0x0b92f20c, 0x745a48de, 0x1e578218, 0x816fd6e9);
    var v8 := Vars(0xb0fa238e, 0xc0645fde, 0xd932eb16, 0x87912990, 0x07590dcd, 0x0b92f20c, 0x745a48de, 0x1e578218);
    NextRound(8, v0, 0xd807aa98, 0x00000000, v1);
    NextRound(9, v1, 0x12835b01, 0x00000000, v2);
    NextRound(10, v2, 0x243185be, 0x00000000, v3);
    NextRound(11, v3, 0x550c7dc3, 0x00000000, v4);
    NextRound(12, v4, 0x72be5d74, 0x00000000, v5);
    NextRound(13, v5, 0x80deb1fe, 0x00000000, v6);
    NextRound(14, v6, 0x9bdc06a7, 0x00000000, v7);
    NextRound(15, v7, 0xc19bf174, 0x00000018, v8);
  }

  lemma Rounds3()
    ensures Rounds(BLOCK, INITIAL, 24)
         == Vars(0xc5d53d8d, 0xa7a3623f, 0xc2606d6d, 0x9dc68b63, 0xaa47c347, 0x49f5114a, 0xe1257970, 0x8ada8930)
  {
    hide Schedule, Rounds, Constant;
    Rounds2();
    Words2();
    RoundConstants2();
    var v0 := Vars(0xb0fa238e, 0xc0645fde, 0xd932eb16, 0x87912990, 0x07590dcd, 0x0b92f20c, 0x745a48de, 0x1e578218);
    var v1 := Vars(0x21da9a9b, 0xb0fa238e, 0xc0645fde, 0xd932eb16, 0x8034229c, 0x07590dcd, 0x0b92f20c, 0x745a48de);
    var v2 := Vars(0xc2fbd9d1, 0x21da9a9b, 0xb0fa238e, 0xc0645fde, 0x846ee454, 0x8034229c, 0x07590dcd, 0x0b92f20c);
    var v3 := Vars(0xfe777bbf, 0xc2fbd9d1, 0x21da9a9b, 0xb0fa238e, 0xcc899961, 0x846ee454, 0x8034229c, 0x07590dcd);
    var v4 := Vars(0xe1f20c33, 0xfe777bbf, 0xc2fbd9d1, 0x21da9a9b, 0xb0638179, 0xcc899961, 0x846ee454, 0x8034229c);
    var v5 := Vars(0x9dc68b63, 0xe1f20c33, 0xfe777bbf, 0xc2fbd9d1, 0x8ada8930, 0xb0638179, 0xcc899961, 0x846ee454);
    var v6 := Vars(0xc2606d6d, 0x9dc68b63, 0xe1f20c33, 0xfe777bbf, 0xe1257970, 0x8ada8930, 0xb0638179, 0xcc899961);
    var v7 := Vars(0xa7a3623f, 0xc2606d6d, 0x9dc68b63, 0xe1f20c33, 0x49f5114a, 0xe1257970, 0x8ada8930, 0xb0638179);
    var v8 := Vars(0xc5d53d8d, 0xa7a3623f, 0xc2606d6d, 0x9dc68b63, 0xaa47c347, 0x49f5114a, 0xe1257970, 0x8ada8930);
    NextRound(16, v0, 0xe49b69c1, 0x61626380, v1);
    NextRound(17, v1, 0xefbe4786, 0x000f0000, v2);
    NextRound(18, v2, 0x0fc19dc6, 0x7da86405, v3);
    NextRound(19, v3, 0x240ca1cc, 0x600003c6, v4);
    NextRound(20, v4, 0x2de92c6f, 0x3e9d7b78, v5);
    NextRound(21, v5, 0x4a7484aa, 0x0183fc00, v6);
    NextRound(22, v6, 0x5cb0a9dc, 0x12dcbfdb, v7);
    NextRound(23, v7, 0x76f988da, 0xe2e2c38e, v8);
  }

  lemma Rounds4()
    ensures Rounds(BLOCK, INITIAL, 32)
         == Vars(0x73b33bf5, 0xea992a22, 0xa0060b30, 0x363482c9, 0xba591112, 0x0109ab3a, 0xade79437, 0x6112a3b7)
  {
    hide Schedule, Rounds, Constant;
    Rounds3();
    Words3();
    RoundConstants3();
    var v0 := Vars(0xc5d53d8d, 0xa7a3623f, 0xc2606d6d, 0x9dc68b63, 0xaa47c347, 0x49f5114a, 0xe1257970, 0x8ada8930);
    var v1 := Vars(0x1c2c2838, 0xc5d53d8d, 0xa7a3623f, 0xc2606d6d, 0x2823ef91, 0xaa47c347, 0x49f5114a, 0xe1257970);
    var v2 := Vars(0xcde8037d, 0x1c2c2838, 0xc5d53d8d, 0xa7a3623f, 0x14383d8e, 0x2823ef91, 0xaa47c347, 0x49f5114a);
    var v3 := Vars(0xb62ec4bc, 0xcde8037d, 0x1c2c2838, 0xc5d53d8d, 0xc74c6516, 0x14383d8e, 0x2823ef91, 0xaa47c347);
    var v4 := Vars(0x77d37528, 0xb62ec4bc, 0xcde8037d, 0x1c2c2838, 0xedffbff8, 0xc74c6516, 0x14383d8e, 0x2823ef91);
    var v5 := Vars(0x363482c9, 0x77d37528, 0xb62ec4bc, 0xcde8037d, 0x6112a3b7, 0xedffbff8, 0xc74c6516, 0x14383d8e);
    var v6 := Vars(0xa0060b30, 0x363482c9, 0x77d37528, 0xb62ec4bc, 0xade79437, 0x6112a3b7, 0xedffbff8, 0xc74c6516);
    var v7 := Vars(0xea992a22, 0xa0060b30, 0x363482c9, 0x77d37528, 0x0109ab3a, 0xade79437, 0x6112a3b7, 0xedffbff8);
    var v8 := Vars(0x73b33bf5, 0xea992a22, 0xa0060b30, 0x363482c9, 0xba591112, 0x0109ab3a, 0xade79437, 0x6112a3b7);
    NextRound(24, v0, 0x983e5152, 0xc8215c1a, v1);
    NextRound(25, v1, 0xa831c66d, 0xb73679a2, v2);
    NextRound(26, v2, 0xb00327c8, 0xe5bc3909, v3);
    NextRound(27, v3, 0xbf597fc7, 0x32663c5b, v4);
    NextRound(28, v4, 0xc6e00bf3, 0x9d209d67, v5);
    NextRound(29, v5, 0xd5a79147, 0xec8726cb, v6);
    NextRound(30, v6, 0x06ca6351, 0x702138a4, v7);
    NextRound(31, v7, 0x14292967, 0xd3b7973b, v8);
  }

  lemma Rounds5()
    ensures Rounds(BLOCK, INITIAL, 40)
         == Vars(0x79ea687a, 0x6dc57a8a, 0x34df1604, 0x41a65cb1, 0x1efbc0a0, 0xf0781bc8, 0xa507a53d, 0x0772a26b)
  {
    hide Schedule, Rounds, Constant;
    Rounds4();
    Words4();
    RoundConstants4();
    var v0 := Vars(0x73b33bf5, 0xea992a22, 0xa0060b30, 0x363482c9, 0xba591112, 0x0109ab3a, 0xade79437, 0x6112a3b7);
    var v1 := Vars(0x98e12507, 0x73b33bf5, 0xea992a22, 0xa0060b30, 0x9cd9f5f6, 0xba591112, 0x0109ab3a, 0xade79437);
    var v2 := Vars(0xfe604df5, 0x98e12507, 0x73b33bf5, 0xea992a22, 0x59249dd3, 0x9cd9f5f6, 0xba591112, 0x0109ab3a);
    var v3 := Vars(0xa9a7738c, 0xfe604df5, 0x98e12507, 0x73b33bf5, 0x085f3833, 0x59249dd3, 0x9cd9f5f6, 0xba591112);
    var v4 := Vars(0x65a0cfe4, 0xa9a7738c, 0xfe604df5, 0x98e12507, 0xf4b002d6, 0x085f3833, 0x59249dd3, 0x9cd9f5f6);
    var v5 := Vars(0x41a65cb1, 0x65a0cfe4, 0xa9a7738c, 0xfe604df5, 0x0772a26b, 0xf4b002d6, 0x085f3833, 0x59249dd3);
    var v6 := Vars(0x34df1604, 0x41a65cb1, 0x65a0cfe4, 0xa9a7738c, 0xa507a53d, 0x0772a26b, 0xf4b002d6, 0x085f3833);
    var v7 := Vars(0x6dc57a8a, 0x34df1604, 0x41a65cb1, 0x65a0cfe4, 0xf0781bc8, 0xa507a53d, 0x0772a26b, 0xf4b002d6);
    var v8 := Vars(0x79ea687a, 0x6dc57a8a, 0x34df1604, 0x41a65cb1, 0x1efbc0a0, 0xf0781bc8, 0xa507a53d, 0x0772a26b);
    NextRound(32, v0, 0x27b70a85, 0x93f5997f, v1);
    NextRound(33, v1, 0x2e1b2138, 0x3b68ba73, v2);
    NextRound(34, v2, 0x4d2c6dfc, 0xaff4ffc1, v3);
    NextRound(35, v3, 0x53380d13, 0xf10a5c62, v4);
    NextRound(36, v4, 0x650a7354, 0x0a8b3996, v5);
    NextRound(37, v5, 0x766a0abb, 0x72af830a, v6);
    NextRound(38, v6, 0x81c2c92e, 0x9409e33e, v7);
    NextRound(39, v7, 0x92722c85, 0x24641522, v8);
  }

  lemma Rounds6()
    ensures Rounds(BLOCK, INITIAL, 48)
         == Vars(0x4172328d, 0xa14c14b0, 0x72ab4b91, 0x26628815, 0xfecf0bc6, 0xd57b94a9, 0xb7755da1, 0xa80f11f0)
  {
    hide Schedule, Rounds, Constant;
    Rounds5();
    Words5();
    RoundConstants5();
    var v0 := Vars(0x79ea687a, 0x6dc57a8a, 0x34df1604, 0x41a65cb1, 0x1efbc0a0, 0xf0781bc8, 0xa507a53d, 0x0772a26b);
    var v1 := Vars(0xd6670766, 0x79ea687a, 0x6dc57a8a, 0x34df1604, 0x26352d63, 0x1efbc0a0, 0xf0781bc8, 0xa507a53d);
    var v2 := Vars(0xdf46652f, 0xd6670766, 0x79ea687a, 0x6dc57a8a, 0x838b2711, 0x26352d63, 0x1efbc0a0, 0xf0781bc8);
    var v3 := Vars(0x17aa0dfe, 0xdf46652f, 0xd6670766, 0x79ea687a, 0xdecd4715, 0x838b2711, 0x26352d63, 0x1efbc0a0);
    var v4 := Vars(0x9d4baf93, 0x17aa0dfe, 0xdf46652f, 0xd6670766, 0xfda24c2e, 0xdecd4715, 0x838b2711, 0x26352d63);
    var v5 := Vars(0x26628815, 0x9d4baf93, 0x17aa0dfe, 0xdf46652f, 0xa80f11f0, 0xfda24c2e, 0xdecd4715, 0x838b2711);
    var v6 := Vars(0x72ab4b91, 0x26628815, 0x9d4baf93, 0x17aa0dfe, 0xb7755da1, 0xa80f11f0, 0xfda24c2e, 0xdecd4715);
    var v7 := Vars(0xa14c14b0, 0x72ab4b91, 0x26628815, 0x9d4baf93, 0xd57b94a9, 0xb7755da1, 0xa80f11f0, 0xfda24c2e);
    var v8 := Vars(0x4172328d, 0xa14c14b0, 0x72ab4b91, 0x26628815, 0xfecf0bc6, 0xd57b94a9, 0xb7755da1, 0xa80f11f0);
    NextRound(40, v0, 0xa2bfe8a1, 0x9f47bf94, v1);
    NextRound(41, v1, 0xa81a664b, 0xf0a64f5a, v2);
    NextRound(42, v2, 0xc24b8b70, 0x3e246a79, v3);
    NextRound(43, v3, 0xc76c51a3, 0x27333ba3, v4);
    NextRound(44, v4, 0xd192e819, 0x0c4763f2, v5);
    NextRound(45, v5, 0xd6990624, 0x840abf27, v6);
    NextRound(46, v6, 0xf40e3585, 0x7a290d5d, v7);
    NextRound(47, v7, 0x106aa070, 0x065c43da, v8);
  }

  lemma Rounds7()
    ensures Rounds(BLOCK, INITIAL, 56)
         == Vars(0x38cc9913, 0x3ec45cdb, 0xf5702fdb, 0x101fd28f, 0x54cb266b, 0xe50e1b4f, 0x9f4787c3, 0x529e7d00)
  {
    hide Schedule, Rounds, Constant;
    Rounds6();
    Words6();
    RoundConstants6();
    var v0 := Vars(0x4172328d, 0xa14c14b0, 0x72ab4b91, 0x26628815, 0xfecf0bc6, 0xd57b94a9, 0xb7755da1, 0xa80f11f0);
    var v1 := Vars(0x05757ceb, 0x4172328d, 0xa14c14b0, 0x72ab4b91, 0xbd714038, 0xfecf0bc6, 0xd57b94a9, 0xb7755da1);
    var v2 := Vars(0xf11bfaa8, 0x05757ceb, 0x4172328d, 0xa14c14b0, 0x6e5c390c, 0xbd714038, 0xfecf0bc6, 0xd57b94a9);
    var v3 := Vars(0x7a0508a1, 0xf11bfaa8, 0x05757ceb, 0x4172328d, 0x52f1ccf7, 0x6e5c390c, 0xbd714038, 0xfecf0bc6);
    var v4 := Vars(0x886e7a22, 0x7a0508a1, 0xf11bfaa8, 0x05757ceb, 0x49231c1e, 0x52f1ccf7, 0x6e5c390c, 0xbd714038);
    var v5 := Vars(0x101fd28f, 0x886e7a22, 0x7a0508a1, 0xf11bfaa8, 0x529e7d00, 0x49231c1e, 0x52f1ccf7, 0x6e5c390c);
    var v6 := Vars(0xf5702fdb, 0x101fd28f, 0x886e7a22, 0x7a0508a1, 0x9f4787c3, 0x529e7d00, 0x49231c1e, 0x52f1ccf7);
    var v7 := Vars(0x3ec45cdb, 0xf5702fdb, 0x101fd28f, 0x886e7a22, 0xe50e1b4f, 0x9f4787c3, 0x529e7d00, 0x49231c1e);
    var v8 := Vars(0x38cc9913, 0x3ec45cdb, 0xf5702fdb, 0x101fd28f, 0x54cb266b, 0xe50e1b4f, 0x9f4787c3, 0x529e7d00);
    NextRound(48, v0, 0x19a4c116, 0xfb3e89cb, v1);
    NextRound(49, v1, 0x1e376c08, 0xcc7617db, v2);
    NextRound(50, v2, 0x2748774c, 0xb9e66c34, v3);
    NextRound(51, v3, 0x34b0bcb5, 0xa9993667, v4);
    NextRound(52, v4, 0x391c0cb3, 0x84badedd, v5);
    NextRound(53, v5, 0x4ed8aa4a, 0xc21462bc, v6);
    NextRound(54, v6, 0x5b9cca4f, 0x1487472c, v7);
    NextRound(55, v7, 0x682e6ff3, 0xb20f7a99, v8);
  }

  lemma Rounds8()
    ensures Rounds(BLOCK, INITIAL, 64)
         == Vars(0x506e3058, 0xd39a2165, 0x04d24d6c, 0xb85e2ce9, 0x5ef50f24, 0xfb121210, 0x948d25b6, 0x961f4894)
  {
    hide Schedule, Rounds, Constant;
    Rounds7();
    Words7();
    RoundConstants7();
    var v0 := Vars(0x38cc9913, 0x3ec45cdb, 0xf5702fdb, 0x101fd28f, 0x54cb266b, 0xe50e1b4f, 0x9f4787c3, 0x529e7d00);
    var v1 := Vars(0xfcd1887b, 0x38cc9913, 0x3ec45cdb, 0xf5702fdb, 0x9b5e906c, 0x54cb266b, 0xe50e1b4f, 0x9f4787c3);
    var v2 := Vars(0xc062d46f, 0xfcd1887b, 0x38cc9913, 0x3ec45cdb, 0x7e44008e, 0x9b5e906c, 0x54cb266b, 0xe50e1b4f);
    var v3 := Vars(0xffb70472, 0xc062d46f, 0xfcd1887b, 0x38cc9913, 0x6d83bfc6, 0x7e44008e, 0x9b5e906c, 0x54cb266b);
    var v4 := Vars(0xb6ae8fff, 0xffb70472, 0xc062d46f, 0xfcd1887b, 0xb21bad3d, 0x6d83bfc6, 0x7e44008e, 0x9b5e906c);
    var v5 := Vars(0xb85e2ce9, 0xb6ae8fff, 0xffb70472, 0xc062d46f, 0x961f4894, 0xb21bad3d, 0x6d83bfc6, 0x7e44008e);
    var v6 := Vars(0x04d24d6c, 0xb85e2ce9, 0xb6ae8fff, 0xffb70472, 0x948d25b6, 0x961f4894, 0xb21bad3d, 0x6d83bfc6);
    var v7 := Vars(0xd39a2165, 0x04d24d6c, 0xb85e2ce9, 0xb6ae8fff, 0xfb121210, 0x948d25b6, 0x961f4894, 0xb21bad3d);
    var v8 := Vars(0x506e3058, 0xd39a2165, 0x04d24d6c, 0xb85e2ce9, 0x5ef50f24, 0xfb121210, 0x948d25b6, 0x961f4894);
    NextRound(56, v0, 0x748f82ee, 0xef57b9cd, v1);
    NextRound(57, v1, 0x78a5636f, 0xebe6b238, v2);
    NextRound(58, v2, 0x84c87814, 0x9fe3095e, v3);
    NextRound(59, v3, 0x8cc70208, 0x78bc8d4b, v4);
    NextRound(60, v4, 0x90befffa, 0xa43fcf15, v5);
    NextRound(61, v5, 0xa4506ceb, 0x668b2ff8, v6);
    NextRound(62, v6, 0xbef9a3f7, 0xeeaba2cc, v7);
    NextRound(63, v7, 0xc67178f2, 0x12b1edeb, v8);
  }

  lemma NoRounds()
    ensures Rounds(BLOCK, INITIAL, 0) == INITIAL
  {
  }

  lemma Compressed()
    ensures Compress(INITIAL, BLOCK)
         == Vars(0xba7816bf, 0x8f01cfea, 0x414140de, 0x5dae2223, 0xb00361a3, 0x96177a9c, 0xb410ff61, 0xf20015ad)
  {
    hide Rounds;
    Rounds8();
  }

  lemma PaddedBlock()
    ensures [0x61, 0x62, 0x63] + Padding(3) == BLOCK
  {
    assert (119 - 3 % 64) % 64 == 52;
    assert Length64(24) == Zeros(7) + [0x18];
    assert Padding(3) == [0x80] + Zeros(52) + Length64(24);
  }

  lemma Octets1()
    ensures WordBytes(0xba7816bf) == [0xba, 0x78, 0x16, 0xbf]
  {
  }

  lemma Octets2()
    ensures WordBytes(0x8f01cfea) == [0x8f, 0x01, 0xcf, 0xea]
  {
  }

  lemma Octets3()
    ensures WordBytes(0x414140de) == [0x41, 0x41, 0x40, 0xde]
  {
  }

  lemma Octets4()
    ensures WordBytes(0x5dae2223) == [0x5d, 0xae, 0x22, 0x23]
  {
  }

  lemma Octets5()
    ensures WordBytes(0xb00361a3) == [0xb0, 0x03, 0x61, 0xa3]
  {
  }

  lemma Octets6()
    ensures WordBytes(0x96177a9c) == [0x96, 0x17, 0x7a, 0x9c]
  {
  }

  lemma Octets7()
    ensures WordBytes(0xb410ff61) == [0xb4, 0x10, 0xff, 0x61]
  {
  }

  lemma Octets8()
    ensures WordBytes(0xf20015ad) == [0xf2, 0x00, 0x15, 0xad]
  {
  }

  /** The example of the standard. */
  lemma DigestOfAbc()
    ensures Hash([0x61, 0x62, 0x63])
         == [0xba, 0x78, 0x16, 0xbf, 0x8f, 0x01, 0xcf, 0xea, 0x41, 0x41, 0x40, 0xde, 0x5d, 0xae, 0x22, 0x23,
             0xb0, 0x03, 0x61, 0xa3, 0x96, 0x17, 0x7a, 0x9c, 0xb4, 0x10, 0xff, 0x61, 0xf2, 0x00, 0x15, 0xad]
  {
    hide Compress, Padding, Fold, WordBytes;
    Octets1();
    Octets2();
    Octets3();
    Octets4();
    Octets5();
    Octets6();
    Octets7();
    Octets8();
    PaddedBlock();
    FoldOne(INITIAL, BLOCK);
    Compressed();
  }
}
