/** The long entries of the tables of powers of ten (cctools/as/flonum-const.c), littlenum by littlenum, with the numbers
    that they denote. */
module PowerTables {
  import opened Bignum
  import opened Multiply

  const LARGEST := 65417      // the largest littlenum of all entries

  /** A littlenum of an entry: none is zero, and none comes near the radix. */
  type Entrynum = n: nat | 0 < n <= LARGEST witness 1

  /** The littlenums of an entry, or the upper ones. */
  predicate IsEntry(s: seq<Littlenum>) {
    Normal(s) && s[0] != 0 && forall i :: 0 <= i < |s| ==> s[i] <= LARGEST
  }

  /** Five littlenums of an entry, and the rest of it. */
  function Row(a: Entrynum, b: Entrynum, c: Entrynum, d: Entrynum, e: Entrynum, rest: seq<Littlenum>): (s: seq<Littlenum>)
    requires rest == [] || IsEntry(rest)
    ensures IsEntry(s) && |s| == |rest| + 5 && Nat([]) == 0
    ensures Nat(s) == a + 0x1_0000 * b + 0x1_0000_0000 * c + 0x1_0000_0000_0000 * d
      + 0x1_0000_0000_0000_0000 * e + 0x1_0000_0000_0000_0000_0000 * Nat(rest)
  {
    RowNumber(a, b, c, d, e, rest);
    [a, b, c, d, e] + rest
  }

  lemma RowNumber(a: Littlenum, b: Littlenum, c: Littlenum, d: Littlenum, e: Littlenum, rest: seq<Littlenum>)
    ensures Nat([a, b, c, d, e] + rest) == a as int + 0x1_0000 * b + 0x1_0000_0000 * c + 0x1_0000_0000_0000 * d
      + 0x1_0000_0000_0000_0000 * e + 0x1_0000_0000_0000_0000_0000 * Nat(rest)
  {
    Consed(e, rest);
    Consed(d, [e] + rest);
    Consed(c, [d, e] + rest);
    Consed(b, [c, d, e] + rest);
    Consed(a, [b, c, d, e] + rest);
    hide Nat;
    assert [d] + ([e] + rest) == [d, e] + rest;
    assert [c] + ([d, e] + rest) == [c, d, e] + rest;
    assert [b] + ([c, d, e] + rest) == [b, c, d, e] + rest;
    assert [a] + ([b, c, d, e] + rest) == [a, b, c, d, e] + rest;
  }

  lemma Consed(a: Littlenum, rest: seq<Littlenum>)
    ensures Nat([a] + rest) == a + 0x1_0000 * Nat(rest)
  {
    assert ([a] + rest)[1..] == rest;
  }

  function Pair(a: Entrynum, b: Entrynum, rest: seq<Littlenum>): (s: seq<Littlenum>)
    requires rest == [] || IsEntry(rest)
    ensures IsEntry(s) && |s| == |rest| + 2 && Nat([]) == 0
    ensures Nat(s) == a + 0x1_0000 * b + 0x1_0000_0000 * Nat(rest)
  {
    Consed(b, rest);
    Consed(a, [b] + rest);
    assert [a] + ([b] + rest) == [a, b] + rest;
    [a, b] + rest
  }

  // ---------------------------------------------------------------- the powers from 10^32 on

  const PLUS_6 := 0x4ee2d6d415b85acef81
  const PLUS_7 := 0x184f03e93ff9f4daa797ed6e38ed64bf6a1f01
  const PLUS_8 := 0x24ee91f2603a6337f4a5ad5835ab7ee915903aad25dfe3e63034d1738fd03df99092e953e01
  const PLUS_9 := 0x553f75fdcefcef46fce4d786a011eab26bc87bf08c7a8c5a17dcd97087710efe534e5b3b24d1c754ab80fef398e3f6ded48bdd4c372c1f074f84c
  const PLUS_10 := 0x1c633415d4c1d238e2e45038b6498a5c4f63b488e4618604647f5f8bb628a3b9ebc37ca8de0991f92930b9e2c5b4bee9c3f20af1d6d507d2044858
  const PLUS_11 := 0x325d9d61a05d4305fa69e914bfae882810e1f3025640fbe9d5924c5bd10c6adb2ceb888a7293f8de50c99743bab2614f3f65c1defb2834f08078d3f

  function Plus6(): (s: seq<Littlenum>)
    ensures IsEntry(s) && |s| == 5 && Nat(s) == PLUS_6
  {
    hide Nat, IsEntry, Row, Pair;
    Row(61313, 34220, 16731, 11629, 1262, [])
  }

  function Plus7(): (s: seq<Littlenum>)
    ensures IsEntry(s) && |s| == 10 && Nat(s) == PLUS_7
  {
    hide Nat, IsEntry, Row, Pair;
    Row(7937, 49002, 60772, 28216, 38893,
    Row(55975, 63988, 59711, 20227, 24, []))
  }

  function Plus8(): (s: seq<Littlenum>)
    ensures IsEntry(s) && |s| == 19 && Nat(s) == PLUS_8
  {
    hide Nat, IsEntry, Row, Pair;
    Row(15873, 11925, 39177, 991, 14589,
    Row(19735, 25347, 65086, 53853, 938,
    Row(37209, 47086, 33626, 23253, 32586,
    Pair(42547, 9731, Pair(59679, 590, [])))))
  }

  function Plus9(): (s: seq<Littlenum>)
    ensures IsEntry(s) && |s| == 30 && Nat(s) == PLUS_9
  {
    hide Nat, IsEntry, Row, Pair;
    Row(63564, 61556, 29377, 54467, 18621,
    Row(28141, 36415, 61241, 47119, 30026,
    Row(19740, 46002, 13541, 61413, 30480,
    Row(38664, 32205, 50593, 51112, 48904,
    Row(48263, 43814, 286, 30826, 52813,
    Row(62575, 61390, 24540, 21495, 5, []))))))
  }

  function Plus10(): (s: seq<Littlenum>)
    ensures IsEntry(s) && |s| == 30 && Nat(s) == PLUS_10
  {
    hide Nat, IsEntry, Row, Pair;
    Row(18520, 53764, 54535, 61910, 61962,
    Row(59843, 46270, 58053, 12473, 63785,
    Row(2449, 43230, 50044, 47595, 10403,
    Row(35766, 32607, 1124, 24966, 35044,
    Row(25524, 23631, 18826, 14518, 58448,
    Row(14562, 49618, 5588, 25396, 28, []))))))
  }

  function Plus11(): (s: seq<Littlenum>)
    ensures IsEntry(s) && |s| == 30 && Nat(s) == PLUS_11
  {
    hide Nat, IsEntry, Row, Pair;
    Row(36159, 2055, 33615, 61362, 23581,
    Row(62454, 9748, 15275, 39284, 58636,
    Row(16269, 42793, 47240, 45774, 50861,
    Row(48400, 9413, 40281, 4030, 9572,
    Row(7984, 33038, 59522, 19450, 40593,
    Row(24486, 54320, 6661, 55766, 805, []))))))
  }

  // ---------------------------------------------------------------- the negative powers

  const MINUS_1 := 0x19999999999999999999999999999999999999999999999999999999999999999999999999999999
  const MINUS_2 := 0x28f5c28f5c28f5c28f5c28f5c28f5c28f5c28f5c28f5c28f5c28f5c28f5c28f5c28f5c28f5c28f5
  const MINUS_3 := 0x68db8bac710cb295e9e1b089a027525460aa64c2f837b4a2339c0ebedfa43fe5c91d14e3bcd35
  const MINUS_4 := 0x2af31dc4611873bf3f70834acdae9f0f4f534f5d60585a5f1c1a3ced1b4be0d415c15d57f4
  const MINUS_5 := 0x734aca5f6226f0ada6175f343cc4d4d9dfb8b60d6e93f84291e669a426db38556b7
  const MINUS_6 := 0x33ec47ab514e652e99f7863b696052bc82d6c6a80a3336679678ce
  const MINUS_7 := 0xa87fea27a539e9a53f2398d747b
  const MINUS_8 := 0x6ee8233e325e7250563e59fb682a79be69943c8de446944a7db319
  const MINUS_9 := 0x300c50c958de864e7ea444557fbaf8d43332fa1cb52769c26f37c58c5a9f6fdb311aa09657befb60ff896e2b718b837daa2ad7b5f871
  const MINUS_10 := 0x9049ee32db23d21c7132d332e3dad75049a9da1482d51d71d857b6c45727e9f956fd217db3343873473c22c11f644e3a0a54c77652105b88779c489
  const MINUS_11 := 0x51534152ed2be05ec3d300ac35cfdab431ecd043451a6537445202bdac266720f8688fe340ec14945ecafa1ddfbea0b118393cea38f3e5ea05184f

  function Minus1(): (s: seq<Littlenum>)
    ensures IsEntry(s) && |s| == 20 && Nat(s) == MINUS_1
  {
    hide Nat, IsEntry, Row, Pair;
    Row(39321, 39321, 39321, 39321, 39321,
    Row(39321, 39321, 39321, 39321, 39321,
    Row(39321, 39321, 39321, 39321, 39321,
    Row(39321, 39321, 39321, 39321, 6553, []))))
  }

  function Minus2(): (s: seq<Littlenum>)
    ensures IsEntry(s) && |s| == 20 && Nat(s) == MINUS_2
  {
    hide Nat, IsEntry, Row, Pair;
    Row(10485, 36700, 62914, 23592, 49807,
    Row(10485, 36700, 62914, 23592, 49807,
    Row(10485, 36700, 62914, 23592, 49807,
    Row(10485, 36700, 62914, 23592, 655, []))))
  }

  function Minus3(): (s: seq<Littlenum>)
    ensures IsEntry(s) && |s| == 20 && Nat(s) == MINUS_3
  {
    hide Nat, IsEntry, Row, Pair;
    Row(52533, 20027, 37329, 65116, 64067,
    Row(60397, 14784, 18979, 33659, 19503,
    Row(2726, 9542, 629, 2202, 40475,
    Row(10590, 4299, 47815, 36280, 6, []))))
  }

  function Minus4(): (s: seq<Littlenum>)
    ensures IsEntry(s) && |s| == 19 && Nat(s) == MINUS_4
  {
    hide Nat, IsEntry, Row, Pair;
    Row(22516, 49501, 54293, 19424, 60699,
    Row(6716, 24348, 22618, 23904, 21327,
    Row(3919, 44703, 19149, 28803, 48959,
    Pair(6259, 50273, Pair(62237, 42, [])))))
  }

  function Minus5(): (s: seq<Littlenum>)
    ensures IsEntry(s) && |s| == 17 && Nat(s) == MINUS_5
  {
    hide Nat, IsEntry, Row, Pair;
    Row(22199, 45957, 17005, 26266, 10526,
    Row(16260, 55017, 35680, 40443, 19789,
    Row(17356, 30195, 55905, 28426, 63010,
    Pair(44197, 1844, []))))
  }

  function Minus6(): (s: seq<Littlenum>)
    ensures IsEntry(s) && |s| == 14 && Nat(s) == MINUS_6
  {
    hide Nat, IsEntry, Row, Pair;
    Row(30926, 26518, 13110, 43018, 54982,
    Row(48258, 24658, 15209, 63366, 11929,
    Pair(20069, 43857, Pair(60487, 51, []))))
  }

  function Minus7(): (s: seq<Littlenum>)
    ensures IsEntry(s) && |s| == 7 && Nat(s) == MINUS_7
  {
    hide Nat, IsEntry, Row, Pair;
    Row(29819, 14733, 21490, 40602, 31315,
    Pair(65186, 2695, []))
  }

  function Minus8(): (s: seq<Littlenum>)
    ensures IsEntry(s) && |s| == 14 && Nat(s) == MINUS_8
  {
    hide Nat, IsEntry, Row, Pair;
    Row(45849, 19069, 18068, 36324, 37948,
    Row(48745, 10873, 64360, 15961, 20566,
    Pair(24178, 15922, Pair(59427, 110, []))))
  }

  function Minus9(): (s: seq<Littlenum>)
    ensures IsEntry(s) && |s| == 27 && Nat(s) == MINUS_9
  {
    hide Nat, IsEntry, Row, Pair;
    Row(63601, 55221, 43562, 33661, 29067,
    Row(28203, 65417, 64352, 22462, 41110,
    Row(12570, 28635, 23199, 50572, 28471,
    Row(27074, 46375, 64028, 13106, 63700,
    Row(32698, 17493, 32420, 34382, 22750,
    Pair(20681, 12300, []))))))
  }

  function Minus10(): (s: seq<Littlenum>)
    ensures IsEntry(s) && |s| == 30 && Nat(s) == MINUS_10
  {
    hide Nat, IsEntry, Row, Pair;
    Row(50313, 34681, 1464, 25889, 19575,
    Row(41125, 17635, 4598, 49708, 13427,
    Row(17287, 56115, 53783, 38255, 32415,
    Row(17778, 31596, 7557, 20951, 18477,
    Row(40353, 1178, 44405, 11837, 11571,
    Row(50963, 15649, 11698, 40675, 2308, []))))))
  }

  function Minus11(): (s: seq<Littlenum>)
    ensures IsEntry(s) && |s| == 30 && Nat(s) == MINUS_11
  {
    hide Nat, IsEntry, Row, Pair;
    Row(6223, 59909, 62437, 59960, 14652,
    Row(45336, 48800, 7647, 51962, 37982,
    Row(60436, 58176, 26767, 8440, 9831,
    Row(48556, 20994, 14148, 6757, 17221,
    Row(60624, 46129, 53210, 44085, 54016,
    Row(24259, 11232, 21229, 21313, 81, []))))))
  }
}
