/** The period of the generator.  The multiplier generates the whole multiplicative group modulo 2^31 - 1, so
    from any legal seed the generator visits every legal value once before it returns. */
module RandomPeriod {
  import opened RandomGen
  import opened BitMask

  /** The seed after n draws. */
  function Iter(n: nat, seed: int): int {
    if n == 0 then seed else Step(Iter(n - 1, seed))
  }

  lemma MulMod(x: int, y: int)
    ensures (x % M) * y % M == x * y % M
  {
    var k := x / M;
    assert x == M * k + x % M;
    assert x * y == M * (k * y) + (x % M) * y;
    ModAdd((x % M) * y, k * y);
  }

  lemma ModAdd(x: int, k: int)
    ensures (M * k + x) % M == x % M
  {}

  lemma {:induction false} IterLegal(n: nat, seed: int)
    requires Legal(seed)
    ensures Legal(Iter(n, seed))
  {
    if n > 0 {
      IterLegal(n - 1, seed);
      StepLegal(Iter(n - 1, seed));
    }
  }

  lemma {:induction false} IterAdd(m: nat, n: nat, seed: int)
    ensures Iter(m + n, seed) == Iter(m, Iter(n, seed))
  {
    if m > 0 { IterAdd(m - 1, n, seed); }
  }

  lemma Reorder(a: int, x: int, s: int)
    ensures (a * x) * s == (x * s) * a
  {}

  lemma ScaleStep(x: int, seed: int)
    ensures A * (x * seed % M) % M == (A * x % M) * seed % M
  {
    MulMod(x * seed, A);
    MulMod(A * x, seed);
    Reorder(A, x, seed);
  }

  /** n draws multiply the seed by n draws from 1. */
  lemma {:induction false} IterScales(n: nat, seed: int)
    requires Legal(seed)
    ensures Iter(n, seed) == Iter(n, 1) * seed % M
  {
    if n > 0 {
      IterScales(n - 1, seed);
      ScaleStep(Iter(n - 1, 1), seed);
    }
  }

  /** One squaring step: k = 2n draws from n draws. */
  lemma D(n: nat, v: int, k: nat, w: int)
    requires n >= 1 && k == 2 * n && Iter(n, 1) == v && v * v % 2147483647 == w
    ensures Iter(k, 1) == w
  {
    hide Iter;
    IterAdd(n, n, 1);
    IterLegal(n, 1);
    IterScales(n, v);
  }

  /** One more draw. */
  lemma E(n: nat, v: int, k: nat, w: int)
    requires k == n + 1 && Iter(n, 1) == v && 48271 * v % 2147483647 == w
    ensures Iter(k, 1) == w
  {}

  lemma OneDraw()
    ensures Iter(1, 1) == A
  {
    assert Iter(0, 1) == 1;
  }

  /** The self-test of the source: 10000 draws from seed 1 give the check value. */
  lemma CheckValue()
    ensures Iter(10000, 1) == CHECK
  {
    hide Iter;
    OneDraw();
    D(1, 48271, 2, 182605794); D(2, 182605794, 4, 1914720637); D(4, 1914720637, 8, 854716505);
    E(8, 854716505, 9, 564586691); D(9, 564586691, 18, 2136927794); E(18, 2136927794, 19, 1559527823);
    D(19, 1559527823, 38, 1168816941); E(38, 1168816941, 39, 1272185027); D(39, 1272185027, 78, 837051536);
    D(78, 837051536, 156, 2071152004); D(156, 2071152004, 312, 1451777401); D(312, 1451777401, 624, 2033250834);
    E(624, 2033250834, 625, 605889173); D(625, 605889173, 1250, 1285444814); D(1250, 1285444814, 2500, 1211932242);
    D(2500, 1211932242, 5000, 1629331733); D(5000, 1629331733, 10000, 399268537);
  }

  lemma Order2()
    ensures Iter(1073741823, 1) == 2147483646
  {
    hide Iter;
    OneDraw();
    D(1, 48271, 2, 182605794); E(2, 182605794, 3, 1291394886); D(3, 1291394886, 6, 407355683);
    E(6, 407355683, 7, 1105902161); D(7, 1105902161, 14, 1738531149); E(14, 1738531149, 15, 1271135913);
    D(15, 1271135913, 30, 631416347); E(30, 631416347, 31, 2010567813); D(31, 2010567813, 62, 352020689);
    E(62, 352020689, 63, 1500063655); D(63, 1500063655, 126, 1771495544); E(126, 1771495544, 127, 1210064531);
    D(127, 1210064531, 254, 17494750); E(254, 17494750, 255, 528003979); D(255, 528003979, 510, 33068610);
    E(510, 33068610, 511, 674523589); D(511, 674523589, 1022, 1079773482); E(1022, 1079773482, 1023, 170153285);
    D(1023, 170153285, 2046, 2090638395); E(2046, 2090638395, 2047, 506941574); D(2047, 506941574, 4094, 571083722);
    E(4094, 571083722, 4095, 1682251770); D(4095, 1682251770, 8190, 1598990191);
    E(8190, 1598990191, 8191, 2145752934); D(8191, 2145752934, 16382, 1775284451);
    E(16382, 1775284451, 16383, 1568284333); D(16383, 1568284333, 32766, 919923199);
    E(32766, 919923199, 32767, 2093369910); D(32767, 2093369910, 65534, 715957851);
    E(65534, 715957851, 65535, 547094450); D(65535, 547094450, 131070, 691983804);
    E(131070, 691983804, 131071, 789557446); D(131071, 789557446, 262142, 1989304545);
    E(262142, 1989304545, 262143, 988416090); D(262143, 988416090, 524286, 669745948);
    E(524286, 669745948, 524287, 1087833970); D(524287, 1087833970, 1048574, 579592049);
    E(1048574, 579592049, 1048575, 70844163); D(1048575, 70844163, 2097150, 662348634);
    E(2097150, 662348634, 2097151, 494375278); D(2097151, 494375278, 4194302, 2041211098);
    E(4194302, 2041211098, 4194303, 456219904); D(4194303, 456219904, 8388606, 1099949637);
    E(8388606, 1099949637, 8388607, 1283239199); D(8388607, 1283239199, 16777214, 1087336646);
    E(16777214, 1087336646, 16777215, 179422739); D(16777215, 179422739, 33554430, 2087461698);
    E(33554430, 2087461698, 33554431, 1783423271); D(33554431, 1783423271, 67108862, 427104007);
    E(67108862, 427104007, 67108863, 894510697); D(67108863, 894510697, 134217726, 1684717138);
    E(134217726, 1684717138, 134217727, 2070223802); D(134217727, 2070223802, 268435454, 381248588);
    E(268435454, 381248588, 268435455, 1463220205); D(268435455, 1463220205, 536870910, 1501823498);
    E(536870910, 1501823498, 536870911, 1916600179); D(536870911, 1916600179, 1073741822, 247665088);
    E(1073741822, 247665088, 1073741823, 2147483646);
  }

  lemma Order3()
    ensures Iter(715827882, 1) == 634005911
  {
    hide Iter;
    OneDraw();
    D(1, 48271, 2, 182605794); D(2, 182605794, 4, 1914720637); E(4, 1914720637, 5, 2078669041);
    D(5, 2078669041, 10, 1596680831); D(10, 1596680831, 20, 2075782095); E(20, 2075782095, 21, 638022372);
    D(21, 638022372, 42, 928270262); D(42, 928270262, 84, 1869683330); E(84, 1869683330, 85, 1336273608);
    D(85, 1336273608, 170, 514973984); D(170, 514973984, 340, 462789817); E(340, 462789817, 341, 1202360313);
    D(341, 1202360313, 682, 1305230128); D(682, 1305230128, 1364, 1903699474); E(1364, 1903699474, 1365, 504570677);
    D(1365, 504570677, 2730, 835093590); D(2730, 835093590, 5460, 2026634775); E(5460, 2026634775, 5461, 1217168587);
    D(5461, 1217168587, 10922, 1544071328); D(10922, 1544071328, 21844, 993974012);
    E(21844, 993974012, 21845, 1039891978); D(21845, 1039891978, 43690, 1202551462);
    D(43690, 1202551462, 87380, 994181842); E(87380, 994181842, 87381, 334635673);
    D(87381, 334635673, 174762, 655141825); D(174762, 655141825, 349524, 1732059499);
    E(349524, 1732059499, 349525, 263247578); D(349525, 263247578, 699050, 771594319);
    D(699050, 771594319, 1398100, 1028271589); E(1398100, 1028271589, 1398101, 908339508);
    D(1398101, 908339508, 2796202, 606617483); D(2796202, 606617483, 5592404, 225207775);
    E(5592404, 225207775, 5592405, 442285911); D(5592405, 442285911, 11184810, 1190715520);
    D(11184810, 1190715520, 22369620, 1681545587); E(22369620, 1681545587, 22369621, 1447624418);
    D(22369621, 1447624418, 44739242, 1863286692); D(44739242, 1863286692, 89478484, 1295582289);
    E(89478484, 1295582289, 89478485, 33904385); D(89478485, 33904385, 178956970, 128178418);
    D(178956970, 128178418, 357913940, 947520058); E(357913940, 947520058, 357913941, 634005912);
    D(357913941, 634005912, 715827882, 634005911);
  }

  lemma Order7()
    ensures Iter(306783378, 1) == 1752599774
  {
    hide Iter;
    OneDraw();
    D(1, 48271, 2, 182605794); D(2, 182605794, 4, 1914720637); D(4, 1914720637, 8, 854716505);
    E(8, 854716505, 9, 564586691); D(9, 564586691, 18, 2136927794); D(18, 2136927794, 36, 1696049367);
    D(36, 1696049367, 72, 1003765604); E(72, 1003765604, 73, 1243427070); D(73, 1243427070, 146, 634782546);
    D(146, 634782546, 292, 1280452098); D(292, 1280452098, 584, 1013864927); E(584, 1013864927, 585, 1269059734);
    D(585, 1269059734, 1170, 1782675778); D(1170, 1782675778, 2340, 1294468951);
    D(2340, 1294468951, 4680, 1340609770); E(4680, 1340609770, 4681, 301988972); D(4681, 301988972, 9362, 848612494);
    D(9362, 848612494, 18724, 866093965); D(18724, 866093965, 37448, 1745507770);
    E(37448, 1745507770, 37449, 884675625); D(37449, 884675625, 74898, 859144287);
    D(74898, 859144287, 149796, 1446108137); D(149796, 1446108137, 299592, 841321726);
    E(299592, 841321726, 299593, 377787329); D(299593, 377787329, 599186, 1682264988);
    D(599186, 1682264988, 1198372, 1542651712); D(1198372, 1542651712, 2396744, 1435361342);
    E(2396744, 1435361342, 2396745, 2062436521); D(2396745, 2062436521, 4793490, 954955178);
    D(4793490, 954955178, 9586980, 897617147); D(9586980, 897617147, 19173960, 1291875315);
    E(19173960, 1291875315, 19173961, 1483188779); D(19173961, 1483188779, 38347922, 751173929);
    D(38347922, 751173929, 76695844, 1930865576); D(76695844, 1930865576, 153391688, 1265934006);
    E(153391688, 1265934006, 153391689, 1253228241); D(153391689, 1253228241, 306783378, 1752599774);
  }

  lemma Order11()
    ensures Iter(195225786, 1) == 219454379
  {
    hide Iter;
    OneDraw();
    D(1, 48271, 2, 182605794); D(2, 182605794, 4, 1914720637); E(4, 1914720637, 5, 2078669041);
    D(5, 2078669041, 10, 1596680831); E(10, 1596680831, 11, 192302371); D(11, 192302371, 22, 914937185);
    E(22, 914937185, 23, 1931656580); D(23, 1931656580, 46, 1659675143); D(46, 1659675143, 92, 1273555394);
    E(92, 1273555394, 93, 1925544752); D(93, 1925544752, 186, 2047876379); D(186, 2047876379, 372, 1461049948);
    D(372, 1461049948, 744, 1352173984); D(744, 1352173984, 1488, 1790707151); E(1488, 1790707151, 1489, 860610524);
    D(1489, 860610524, 2978, 725067885); D(2978, 725067885, 5956, 2050800581); E(5956, 2050800581, 5957, 1641169692);
    D(5957, 1641169692, 11914, 776581675); E(11914, 776581675, 11915, 2046975540);
    D(11915, 2046975540, 23830, 533118511); E(23830, 533118511, 23831, 867102480);
    D(23831, 867102480, 47662, 1306343060); D(47662, 1306343060, 95324, 2122869128);
    E(95324, 2122869128, 95325, 1538493789); D(95325, 1538493789, 190650, 1573903527);
    D(190650, 1573903527, 381300, 788714273); D(381300, 788714273, 762600, 703036765);
    D(762600, 703036765, 1525200, 1391583935); E(1525200, 1391583935, 1525201, 2007131872);
    D(1525201, 2007131872, 3050402, 212339030); D(3050402, 212339030, 6100804, 1383565116);
    E(6100804, 1383565116, 6100805, 1477776383); D(6100805, 1477776383, 12201610, 1443026680);
    E(12201610, 1443026680, 12201611, 561296188); D(12201611, 561296188, 24403222, 1822133472);
    E(24403222, 1822133472, 24403223, 1717096733); D(24403223, 1717096733, 48806446, 1553344560);
    D(48806446, 1553344560, 97612892, 1636274923); E(97612892, 1636274923, 97612893, 178271473);
    D(97612893, 178271473, 195225786, 219454379);
  }

  lemma Order31()
    ensures Iter(69273666, 1) == 64
  {
    hide Iter;
    OneDraw();
    D(1, 48271, 2, 182605794); D(2, 182605794, 4, 1914720637); D(4, 1914720637, 8, 854716505);
    D(8, 854716505, 16, 1098894339); D(16, 1098894339, 32, 890442452); E(32, 890442452, 33, 662405787);
    D(33, 662405787, 66, 163677341); D(66, 163677341, 132, 1143645057); D(132, 1143645057, 264, 990831342);
    D(264, 990831342, 528, 1785778226); D(528, 1785778226, 1056, 362055173); E(1056, 362055173, 1057, 543336597);
    D(1057, 543336597, 2114, 1229555470); D(2114, 1229555470, 4228, 1932643596);
    D(4228, 1932643596, 8456, 1384106082); D(8456, 1384106082, 16912, 1799454162);
    D(16912, 1799454162, 33824, 140140578); E(33824, 140140578, 33825, 152352588);
    D(33825, 152352588, 67650, 2143464368); D(67650, 2143464368, 135300, 1231687107);
    D(135300, 1231687107, 270600, 1179955738); D(270600, 1179955738, 541200, 1000146299);
    D(541200, 1000146299, 1082400, 113216198); E(1082400, 113216198, 1082401, 1860695690);
    D(1082401, 1860695690, 2164802, 1385289343); D(2164802, 1385289343, 4329604, 1088033789);
    D(4329604, 1088033789, 8659208, 760156050); D(8659208, 760156050, 17318416, 18364172);
    D(17318416, 18364172, 34636832, 1981320704); E(34636832, 1981320704, 34636833, 2147483639);
    D(34636833, 2147483639, 69273666, 64);
  }

  lemma Order151()
    ensures Iter(14221746, 1) == 556613938
  {
    hide Iter;
    OneDraw();
    D(1, 48271, 2, 182605794); E(2, 182605794, 3, 1291394886); D(3, 1291394886, 6, 407355683);
    D(6, 407355683, 12, 1203428207); E(12, 1203428207, 13, 1250328747); D(13, 1250328747, 26, 2064876628);
    E(26, 2064876628, 27, 353718330); D(27, 353718330, 54, 1243696899); D(54, 1243696899, 108, 1578591759);
    D(108, 1578591759, 216, 1217156878); E(216, 1217156878, 217, 374559665); D(217, 374559665, 434, 1342643044);
    D(434, 1342643044, 868, 879698354); D(868, 879698354, 1736, 575015841); D(1736, 575015841, 3472, 700487619);
    D(3472, 700487619, 6944, 35004810); D(6944, 35004810, 13888, 1881510723); D(13888, 1881510723, 27776, 1750454342);
    D(27776, 1750454342, 55552, 754548510); E(55552, 754548510, 55553, 1488473090);
    D(55553, 1488473090, 111106, 1995416033); E(111106, 1995416033, 111107, 1790793699);
    D(111107, 1790793699, 222214, 945603823); D(222214, 945603823, 444428, 1276659374);
    E(444428, 1276659374, 444429, 1433908042); D(444429, 1433908042, 888858, 158202739);
    E(888858, 158202739, 888859, 152565537); D(888859, 152565537, 1777718, 690230654);
    D(1777718, 690230654, 3555436, 1987514868); D(3555436, 1987514868, 7110872, 264128622);
    E(7110872, 264128622, 7110873, 142300323); D(7110873, 142300323, 14221746, 556613938);
  }

  lemma Order331()
    ensures Iter(6487866, 1) == 1627574666
  {
    hide Iter;
    OneDraw();
    D(1, 48271, 2, 182605794); E(2, 182605794, 3, 1291394886); D(3, 1291394886, 6, 407355683);
    D(6, 407355683, 12, 1203428207); D(12, 1203428207, 24, 1402304087); D(24, 1402304087, 48, 412013968);
    E(48, 412013968, 49, 480194461); D(49, 480194461, 98, 206008598); D(98, 206008598, 196, 2102786807);
    E(196, 2102786807, 197, 659901595); D(197, 659901595, 394, 1005623647); E(394, 1005623647, 395, 738707549);
    D(395, 738707549, 790, 420269058); E(790, 420269058, 791, 1677169156); D(791, 1677169156, 1582, 2098422980);
    E(1582, 2098422980, 1583, 467005884); D(1583, 467005884, 3166, 1428760995); E(3166, 1428760995, 3167, 1284666240);
    D(3167, 1284666240, 6334, 535482552); E(6334, 535482552, 6335, 1165092300);
    D(6335, 1165092300, 12670, 1242287017); E(12670, 1242287017, 12671, 103238779);
    D(12671, 103238779, 25342, 681508437); E(25342, 681508437, 25343, 1939257681);
    D(25343, 1939257681, 50686, 1601417754); D(50686, 1601417754, 101372, 309481366);
    D(101372, 309481366, 202744, 352221276); E(202744, 352221276, 202745, 445180497);
    D(202745, 445180497, 405490, 1174953797); E(405490, 1174953797, 405491, 1151617717);
    D(405491, 1151617717, 810982, 444892729); E(810982, 444892729, 810983, 580451559);
    D(810983, 580451559, 1621966, 830576038); D(1621966, 830576038, 3243932, 1206673767);
    E(3243932, 1206673767, 3243933, 1150449276); D(3243933, 1150449276, 6487866, 1627574666);
  }

  /** M - 1 draws return to seed 1. */
  lemma FullCycle()
    ensures Iter(M - 1, 1) == 1
  {
    hide Iter;
    Order2();
    D(1073741823, 2147483646, 2147483646, 1);
  }

  // ----- the order of the multiplier

  ghost predicate Back(n: nat) { n > 0 && Iter(n, 1) == 1 }

  lemma LeastBack() returns (d: nat)
    ensures Back(d) && d <= M - 1 && forall j: nat :: j < d ==> !Back(j)
  {
    FullCycle();
    d := M - 1;
    while exists j: nat :: j < d && Back(j)
      invariant Back(d) && d <= M - 1
      decreases d
    {
      var j: nat :| j < d && Back(j);
      d := j;
    }
  }

  lemma {:induction false} BackMultiple(d: nat, q: nat)
    requires Back(d)
    ensures Iter(d * q, 1) == 1
  {
    if q > 0 {
      BackMultiple(d, q - 1);
      assert d * q == d + d * (q - 1);
      IterAdd(d, d * (q - 1), 1);
    }
  }

  lemma LeastDivides(d: nat, n: nat)
    requires Back(d) && (forall j: nat :: j < d ==> !Back(j)) && Back(n)
    ensures n % d == 0
  {
    var q, r := n / d, n % d;
    BackMultiple(d, q);
    assert n == r + d * q;
    IterAdd(r, d * q, 1);
    assert !Back(r);
  }

  // ----- a divisor of M - 1 = 2 * 3 * 3 * 7 * 11 * 31 * 151 * 331 other than 1 has one of these prime factors

  /** The greatest common divisor as a combination. */
  lemma {:induction false} Bezout(a: nat, b: nat) returns (g: nat, x: int, y: int, u: nat, v: nat)
    requires a > 0
    ensures g > 0 && a == g * u && b == g * v && g == a * x + b * y
    decreases b
  {
    if b == 0 {
      g, x, y, u, v := a, 1, 0, 1, 0;
    } else {
      var q, r := a / b, a % b;
      assert a == b * q + r;
      var x', y', u', v';
      g, x', y', u', v' := Bezout(b, r);
      x, y, u, v := y', x' - q * y', u' * q + v', u';
      Recombine(a, b, q, r, g, x', y', u', v');
    }
  }

  lemma Recombine(a: int, b: int, q: int, r: int, g: int, x: int, y: int, u: int, v: int)
    requires a == b * q + r && b == g * u && r == g * v && g == b * x + r * y
    ensures a == g * (u * q + v) && g == a * y + b * (x - q * y)
  {
    assert g * (u * q + v) == (g * u) * q + g * v;
    assert b * (x - q * y) == b * x - (b * q) * y;
    assert a * y == (b * q) * y + r * y;
  }

  function Tried(p: nat, n: nat): bool {
    n < 2 || (p % n != 0 && Tried(p, n - 1))
  }

  ghost predicate Prime(p: nat) {
    p >= 2 && forall g: nat, h: nat :: p == g * h ==> g == 1 || h == 1
  }

  lemma {:induction false} TriedMeans(p: nat, n: nat, g: nat)
    requires Tried(p, n) && 2 <= g <= n
    ensures p % g != 0
  {
    if g < n { TriedMeans(p, n - 1, g); }
  }

  lemma TriedFactor(p: nat, n: nat, g: nat, h: nat)
    requires p == g * h && Tried(p, n) && 1 <= g <= n
    ensures g == 1
  {
    hide Tried;
    ModOfProduct(g, h);
    if g >= 2 { TriedMeans(p, n, g); }
  }

  lemma OneIsSmall(p: nat, n: nat, g: nat, h: nat)
    requires p == g * h && p < (n + 1) * (n + 1)
    ensures g <= n || h <= n
  {
    if g > n && h > n { Grow(g, h, n + 1); }
  }

  lemma FactorsPositive(g: nat, h: nat)
    requires g * h >= 1
    ensures g >= 1 && h >= 1
  {}

  /** Trial division by everything up to n decides primality of p < (n + 1)^2. */
  lemma TrialDivision(p: nat, n: nat)
    requires p >= 2 && n < p && p < (n + 1) * (n + 1) && Tried(p, n)
    ensures Prime(p)
  {
    hide Tried;
    forall g: nat, h: nat | p == g * h ensures g == 1 || h == 1 {
      FactorsPositive(g, h);
      OneIsSmall(p, n, g, h);
      if g <= n {
        TriedFactor(p, n, g, h);
      } else {
        Reorder(1, g, h);
        TriedFactor(p, n, h, g);
      }
    }
  }

  lemma ModOfProduct(g: nat, h: nat)
    requires g > 0
    ensures (g * h) % g == 0
  {
    ModUnique(g * h, g, h, 0);
  }

  lemma Grow(g: nat, h: nat, m: nat)
    requires g >= m && h >= m
    ensures g * h >= m * m
  {
    assert g * h >= g * m;
    assert g * m >= m * m;
  }

  /** k divides n. */
  ghost predicate Divides(k: int, n: int) { exists c: int :: n == k * c }

  /** A divisor of p * n that the prime p does not divide is a divisor of n. */
  lemma StripPrime(p: nat, k: nat, n: nat)
    requires Prime(p) && k > 0 && Divides(k, p * n) && !Divides(p, k)
    ensures Divides(k, n)
  {
    var c: int :| p * n == k * c;
    var g, x, y, u, v := Bezout(p, k);
    assert u == 1 ==> k == p * v;
    Combine(p, k, n, c, x, y);
  }

  lemma Combine(p: int, k: int, n: int, c: int, x: int, y: int)
    requires p * n == k * c && p * x + k * y == 1
    ensures n == k * (c * x + n * y)
  {
    calc {
      n;
      n * (p * x + k * y);
      n * (p * x) + n * (k * y);
      { assert n * (p * x) == (p * n) * x; }
      (k * c) * x + n * (k * y);
      { assert (k * c) * x == k * (c * x) && n * (k * y) == k * (n * y); }
      k * (c * x) + k * (n * y);
      k * (c * x + n * y);
    }
  }

  lemma SmallPrimes()
    ensures Prime(2) && Prime(3) && Prime(7) && Prime(11) && Prime(31) && Prime(151) && Prime(331)
  {
    TrialDivision(2, 1);
    TrialDivision(3, 1);
    TrialDivision(7, 2);
    TrialDivision(11, 3);
    TrialDivision(31, 5);
    TrialDivision(151, 12);
    assert Tried(331, 6);
    assert Tried(331, 12);
    TrialDivision(331, 18);
  }

  lemma NotOne(k: int, c: int)
    ensures k > 1 ==> k * c != 1
    ensures k == 0 ==> k * c != 1
  {
    if k > 1 {
      if c >= 1 { MulAtLeast(k, c); } else if c <= -1 { MulAtLeast(k, -c); }
    }
  }

  lemma DividesOne(k: nat)
    requires Divides(k, 1)
    ensures k == 1
  {
    var c: int :| 1 == k * c;
    NotOne(k, c);
  }

  lemma PrimeFactor(k: nat)
    requires k > 1 && Divides(k, M - 1)
    ensures Divides(2, k) || Divides(3, k) || Divides(7, k) || Divides(11, k) || Divides(31, k) || Divides(151, k) || Divides(331, k)
  {
    hide Prime, Divides;
    SmallPrimes();
    if !(Divides(2, k) || Divides(3, k) || Divides(7, k) || Divides(11, k) || Divides(31, k) || Divides(151, k) || Divides(331, k)) {
      StripPrime(2, k, 1073741823);
      StripPrime(3, k, 357913941);
      StripPrime(3, k, 119304647);
      StripPrime(7, k, 17043521);
      StripPrime(11, k, 1549411);
      StripPrime(31, k, 49981);
      StripPrime(151, k, 331);
      StripPrime(331, k, 1);
      DividesOne(k);
    }
  }

  lemma NotNegative(d: int, c: int)
    requires d > 0
    ensures d * c >= 0 ==> c >= 0
  {
    if c <= -1 { MulAtLeast(d, -c); }
  }

  lemma CofactorBack(d: nat, k: nat, p: nat, e: nat)
    requires Back(d) && M - 1 == d * k && Divides(p, k) && p > 0 && M - 1 == p * e
    ensures Iter(e, 1) == 1
  {
    var c: int :| k == p * c;
    assert d * k == p * (d * c);
    assert e == d * c;
    NotNegative(d, c);
    BackMultiple(d, c);
  }

  /** The multiplier's order is the whole of M - 1. */
  lemma OrderIsFull(j: nat)
    requires 0 < j < M - 1
    ensures Iter(j, 1) != 1
  {
    hide Iter, Divides;
    var d := LeastBack();
    FullCycle();
    LeastDivides(d, M - 1);
    var k := (M - 1) / d;
    assert M - 1 == d * k;
    if k > 1 {
      DividesBy(k, d, M - 1);
      PrimeFactor(k);
      Order2(); Order3(); Order7(); Order11(); Order31(); Order151(); Order331();
      if Divides(2, k) { CofactorBack(d, k, 2, 1073741823); }
      else if Divides(3, k) { CofactorBack(d, k, 3, 715827882); }
      else if Divides(7, k) { CofactorBack(d, k, 7, 306783378); }
      else if Divides(11, k) { CofactorBack(d, k, 11, 195225786); }
      else if Divides(31, k) { CofactorBack(d, k, 31, 69273666); }
      else if Divides(151, k) { CofactorBack(d, k, 151, 14221746); }
      else { CofactorBack(d, k, 331, 6487866); }
    }
    assert k == 1;
    assert !Back(j);
  }

  lemma DividesBy(k: nat, d: nat, n: nat)
    requires n == d * k
    ensures Divides(k, n)
  {
    assert n == k * d;
  }

  // ----- permutation, period, coverage

  /** The generator step is one-to-one on legal seeds; multiplying by INVERSE undoes it. */
  lemma StepInverse(seed: int)
    requires Legal(seed)
    ensures INVERSE * Step(seed) % M == seed
  {
    StepFacts(seed);
    var z := INVERSE * (A * seed / M) - 42704 * seed;
    assert INVERSE * Step(seed) == seed - M * z;
    ModAdd(seed, -z);
  }

  lemma {:induction false} SameStart(i: nat, j: nat)
    requires i <= j && Iter(i, 1) == Iter(j, 1)
    ensures Iter(j - i, 1) == 1
  {
    if i > 0 {
      IterLegal(i - 1, 1);
      IterLegal(j - 1, 1);
      StepInverse(Iter(i - 1, 1));
      StepInverse(Iter(j - 1, 1));
      SameStart(i - 1, j - 1);
    }
  }

  ghost function Visited(n: nat): set<int> {
    set i: nat | i < n :: Iter(i, 1)
  }

  lemma {:induction false} VisitedSize(n: nat)
    requires n <= M - 1
    ensures |Visited(n)| == n
  {
    if n > 0 {
      VisitedSize(n - 1);
      if i: nat :| i < n - 1 && Iter(i, 1) == Iter(n - 1, 1) {
        SameStart(i, n - 1);
        OrderIsFull(n - 1 - i);
      }
      assert Visited(n) == Visited(n - 1) + {Iter(n - 1, 1)};
    }
  }

  /** The set {1, ..., n}. */
  ghost function UpTo(n: nat): (s: set<int>)
    ensures |s| == n
    ensures forall x :: x in s <==> 1 <= x <= n
  {
    if n == 0 then {} else UpTo(n - 1) + {n}
  }

  lemma Smaller(s: set<int>, t: set<int>)
    requires s <= t
    ensures |s| <= |t|
  {
    assert t == s + (t - s);
    assert |s + (t - s)| == |s| + |t - s|;
  }

  lemma Bigger(s: set<int>, t: set<int>, x: int)
    requires s <= t && x in t && x !in s
    ensures |s| < |t|
  {
    Smaller(s, t - {x});
    assert |t - {x}| == |t| - 1;
  }

  lemma FillsUp(s: set<int>, t: set<int>)
    requires s <= t && |s| == |t|
    ensures s == t
  {
    forall x | x in t ensures x in s {
      if x !in s { Bigger(s, t, x); }
    }
  }

  lemma VisitedLegal(n: nat)
    ensures Visited(n) <= UpTo(M - 1)
  {
    forall x | x in Visited(n) ensures x in UpTo(M - 1) {
      var i: nat :| i < n && x == Iter(i, 1);
      IterLegal(i, 1);
    }
  }

  /** Starting from 1 every legal value comes up within M - 1 draws. */
  lemma ReachedFromOne(s: int) returns (k: nat)
    requires Legal(s)
    ensures k < M - 1 && Iter(k, 1) == s
  {
    VisitedLegal(M - 1);
    VisitedSize(M - 1);
    FillsUp(Visited(M - 1), UpTo(M - 1));
    assert s in UpTo(M - 1);
    k :| k < M - 1 && s == Iter(k, 1);
  }

  /** From any legal seed, every legal value comes up within M - 1 draws. */
  lemma EveryValueComesUp(seed: int, value: int) returns (n: nat)
    requires Legal(seed) && Legal(value)
    ensures n < M - 1 && Iter(n, seed) == value
  {
    var i := ReachedFromOne(seed);
    var j := ReachedFromOne(value);
    n := if j >= i then j - i else j + (M - 1) - i;
    IterAdd(n, i, 1);
    if j < i {
      FullCycle();
      IterAdd(j, M - 1, 1);
    }
  }

  /** n draws from 1 are back at 1 exactly when n is a multiple of M - 1. */
  lemma BackIff(n: nat)
    ensures Iter(n, 1) == 1 <==> n % (M - 1) == 0
  {
    hide Iter;
    var q, r := n / (M - 1), n % (M - 1);
    FullCycle();
    BackMultiple(M - 1, q);
    assert n == r + (M - 1) * q;
    IterAdd(r, (M - 1) * q, 1);
    if r > 0 { OrderIsFull(r); } else { NoDraw(1); }
  }

  lemma NoDraw(seed: int)
    ensures Iter(0, seed) == seed
  {}

  /** Every run is purely periodic with period exactly M - 1, whatever the seed. */
  lemma ExactPeriod(seed: int, n: nat)
    requires Legal(seed)
    ensures Iter(n, seed) == seed <==> n % (M - 1) == 0
  {
    hide Iter;
    var k := ReachedFromOne(seed);
    IterAdd(n, k, 1);
    IterAdd(k, n, 1);
    if Iter(n, seed) == seed { SameStart(k, n + k); }
    BackIff(n);
  }
}
