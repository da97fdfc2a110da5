/** An example of BIP 173, section "Examples": what the encoder of BRBech32.c makes of a known program. */
module Bech32Example {
  import opened Bech32
  import opened Prelude

  const PROGRAM: seq<bv8> :=
    [0x75, 0x1e, 0x76, 0xe8, 0x19, 0x91, 0x96, 0xd4, 0x54, 0x94,
     0x1c, 0x45, 0xd1, 0xb3, 0xa3, 0x23, 0xf1, 0x43, 0x3b, 0xd6]

  const GROUPS0: seq<bv8> := [14, 20, 15, 7, 13, 26, 0, 25]
  const GROUPS1: seq<bv8> := [18, 6, 11, 13, 8, 21, 4, 20]
  const GROUPS2: seq<bv8> := [3, 17, 2, 29, 3, 12, 29, 3]
  const GROUPS3: seq<bv8> := [4, 15, 24, 20, 6, 14, 30, 22]

  const GROUPS: seq<bv8> := GROUPS0 + GROUPS1 + GROUPS2 + GROUPS3

  lemma Block0()
    ensures forall r: nat :: r < 8 ==> Group(PROGRAM, 0 + r) == GROUPS0[r]
  {
    hide Group;
    BlockGroups(PROGRAM, 0);
  }

  lemma Block1()
    ensures forall r: nat :: r < 8 ==> Group(PROGRAM, 8 + r) == GROUPS1[r]
  {
    hide Group;
    BlockGroups(PROGRAM, 1);
  }

  lemma Block2()
    ensures forall r: nat :: r < 8 ==> Group(PROGRAM, 16 + r) == GROUPS2[r]
  {
    hide Group;
    BlockGroups(PROGRAM, 2);
  }

  lemma Block3()
    ensures forall r: nat :: r < 8 ==> Group(PROGRAM, 24 + r) == GROUPS3[r]
  {
    hide Group;
    BlockGroups(PROGRAM, 3);
  }

  lemma ProgramGroups()
    ensures Groups(PROGRAM) == GROUPS
  {
    hide Group;
    Block0();
    Block1();
    Block2();
    Block3();
    forall k | 0 <= k < 32
      ensures Group(PROGRAM, k) == GROUPS[k]
    {
      if k < 8 { assert Group(PROGRAM, 0 + k) == GROUPS0[k]; }
      else if k < 16 { assert Group(PROGRAM, 8 + (k - 8)) == GROUPS1[k - 8]; }
      else if k < 24 { assert Group(PROGRAM, 16 + (k - 16)) == GROUPS2[k - 16]; }
      else { assert Group(PROGRAM, 24 + (k - 24)) == GROUPS3[k - 24]; }
    }
  }

  // The prefix and the version leave the checksum in one state, every eight groups in another.
  lemma Start()
    ensures Run(1, [3, 3, 0, 2, 3, 0]) == 0x3d5a5fd2
  {
    RunSix(1, 3, 3, 0, 2, 3, 0);
  }

  lemma Run0()
    ensures Run(0x3d5a5fd2, Wide(GROUPS0)) == 0x2b1bcbce
  {
    var s: bv32 := 0x3d5a5fd2;
    RunEight(s, 14, 20, 15, 7, 13, 26, 0, 25);
  }

  lemma Run1()
    ensures Run(0x2b1bcbce, Wide(GROUPS1)) == 0x23a1ff4b
  {
    var s: bv32 := 0x2b1bcbce;
    RunEight(s, 18, 6, 11, 13, 8, 21, 4, 20);
  }

  lemma Run2()
    ensures Run(0x23a1ff4b, Wide(GROUPS2)) == 0x2a387174
  {
    var s: bv32 := 0x23a1ff4b;
    RunEight(s, 3, 17, 2, 29, 3, 12, 29, 3);
  }

  lemma Run3()
    ensures Run(0x2a387174, Wide(GROUPS3)) == 0x979c4ed
  {
    var s: bv32 := 0x2a387174;
    RunEight(s, 4, 15, 24, 20, 6, 14, 30, 22);
  }

  lemma RunEight(s: bv32, a: bv8, b: bv8, c: bv8, d: bv8, e: bv8, f: bv8, g: bv8, h: bv8)
    ensures
      var t := Feed(Feed(Feed(Feed(s, Widen(a)), Widen(b)), Widen(c)), Widen(d));
      Run(s, Wide([a, b, c, d, e, f, g, h])) == Feed(Feed(Feed(Feed(t, Widen(e)), Widen(f)), Widen(g)), Widen(h))
  {
    hide Feed, Run, Widen;
    NothingFed(s);
    WideSnoc(s, [], a);
    WideSnoc(s, [a], b);
    WideSnoc(s, [a, b], c);
    WideSnoc(s, [a, b, c], d);
    WideSnoc(s, [a, b, c, d], e);
    WideSnoc(s, [a, b, c, d, e], f);
    WideSnoc(s, [a, b, c, d, e, f], g);
    WideSnoc(s, [a, b, c, d, e, f, g], h);
    assert [] + [a] == [a] && [a] + [b] == [a, b] && [a, b] + [c] == [a, b, c] && [a, b, c] + [d] == [a, b, c, d];
    assert [a, b, c, d] + [e] == [a, b, c, d, e] && [a, b, c, d, e] + [f] == [a, b, c, d, e, f];
    assert [a, b, c, d, e, f] + [g] == [a, b, c, d, e, f, g];
    assert [a, b, c, d, e, f, g] + [h] == [a, b, c, d, e, f, g, h];
  }

  lemma Whole()
    ensures Run(1, PrefixValues("bc") + Wide([0] + GROUPS)) == 0x979c4ed
  {
    hide Run, PrefixValues, Wide;
    Start();
    Run0();
    Run1();
    Run2();
    Run3();
    PrefixOfBc();
    var a, b, c, d := Wide(GROUPS0), Wide(GROUPS1), Wide(GROUPS2), Wide(GROUPS3);
    WideConcat([0], GROUPS);
    WideConcat(GROUPS0 + GROUPS1 + GROUPS2, GROUPS3);
    WideConcat(GROUPS0 + GROUPS1, GROUPS2);
    WideConcat(GROUPS0, GROUPS1);
    assert [3, 3, 0, 2, 3] + ([0] + (a + b + c + d)) == [3, 3, 0, 2, 3, 0] + a + b + c + d;
    RunConcat(1, [3, 3, 0, 2, 3, 0], a);
    RunConcat(1, [3, 3, 0, 2, 3, 0] + a, b);
    RunConcat(1, [3, 3, 0, 2, 3, 0] + a + b, c);
    RunConcat(1, [3, 3, 0, 2, 3, 0] + a + b + c, d);
  }

  lemma PrefixOfBc()
    ensures PrefixValues("bc") == [3, 3, 0, 2, 3] && Wide([0]) == [0]
  {
    assert HighBits('b') == 3 && HighBits('c') == 3 && LowBits('b') == 2 && LowBits('c') == 3;
  }

  lemma Closing()
    ensures Checksum(0x979c4ed) == [12, 7, 9, 17, 11, 21]
  {
    assert Xor(Times6(0x979c4ed), 1) == 0x1874c575;
  }

  lemma Letters0()
    ensures Five(GROUPS0) && CharsOf(GROUPS0) == "w508d6qe"
  {
  }

  lemma Letters1()
    ensures Five(GROUPS1) && CharsOf(GROUPS1) == "jxtdg4y5"
  {
  }

  lemma Letters2()
    ensures Five(GROUPS2) && CharsOf(GROUPS2) == "r3zarvar"
  {
  }

  lemma Letters3()
    ensures Five(GROUPS3) && CharsOf(GROUPS3) == "y0c5xw7k"
  {
  }

  lemma ClosingLetters()
    ensures Five([12, 7, 9, 17, 11, 21]) && CharsOf([12, 7, 9, 17, 11, 21]) == "v8f3t4" && CharOf(0) == 'q'
  {
  }

  lemma Letters()
    ensures Five(GROUPS) && CharsOf(GROUPS) == "w508d6qe" + "jxtdg4y5" + "r3zarvar" + "y0c5xw7k"
  {
    hide CharOf;
    Letters0();
    Letters1();
    Letters2();
    Letters3();
    CharsConcat(GROUPS0, GROUPS1);
    CharsConcat(GROUPS0 + GROUPS1, GROUPS2);
    CharsConcat(GROUPS0 + GROUPS1 + GROUPS2, GROUPS3);
  }

  lemma CharsConcat(a: seq<bv8>, b: seq<bv8>)
    requires Five(a) && Five(b)
    ensures Five(a + b) && CharsOf(a + b) == CharsOf(a) + CharsOf(b)
  {
    hide CharOf;
  }

  const DATA: seq<bv8> := [0, 20] + PROGRAM

  lemma DataPasses()
    ensures IsProgram(DATA) && Passes("bc", DATA) && DATA[2..22] == PROGRAM && VersionOf(DATA[0]) == 0
    ensures DATA[1] as int == 20 && GroupCount(20) == 32
  {
    assert DATA[1] as int == 20;
  }

  /** The program of twenty bytes is the address of the example, letter by letter. */
  lemma ExampleAddress()
    ensures
      IsProgram(DATA) &&
      Encoded("bc", DATA) == Address("bc1q" + ("w508d6qe" + "jxtdg4y5" + "r3zarvar" + "y0c5xw7k") + "v8f3t4")
  {
    hide Run, Checksum, Groups, CharsOf, CharOf, Passes, Wide, PrefixValues, VersionOf, GroupCount, Text;
    DataPasses();
    ProgramGroups();
    Whole();
    Closing();
    ClosingLetters();
    Letters();
    TextParts("bc", DATA);
    assert Payload(DATA) == [0] + GROUPS;
    CharsJoin(0, GROUPS, [12, 7, 9, 17, 11, 21]);
    var text := "w508d6qe" + "jxtdg4y5" + "r3zarvar" + "y0c5xw7k";
    assert "bc" + "1" + (['q'] + text + "v8f3t4") == "bc1q" + text + "v8f3t4";
  }
}
