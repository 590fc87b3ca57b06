/** The two limits of __check_for_overflow are prime, and no larger number of the same width is.
    Each primality proof is a chain of certified square-and-multiply steps. */
module PrimeLimits {
  import opened NumberTheory

  const LIMIT_32: nat := 4294967291  // 0xFFFFFFFB
  const LIMIT_64: nat := 18446744073709551557  // 0xFFFFFFFFFFFFFFC5

  const PRIMES_BELOW_127: set<nat> := {2, 3, 5, 7, 11, 13, 17, 19, 23, 29, 31, 37, 41, 43, 47, 53, 59, 61, 67, 71, 73, 79, 83, 89, 97, 101, 103, 107, 109, 113}

  lemma FactorBelow127(d: nat) returns (p: nat)
    requires 2 <= d < 127
    ensures p in PRIMES_BELOW_127 && Divides(p, d)
  {
    if d % 2 == 0 { return 2; }
    if d % 3 == 0 { return 3; }
    if d % 5 == 0 { return 5; }
    if d % 7 == 0 { return 7; }
    if d == 121 { return 11; }
    if d < 67 { InTableLow(d); } else { InTableHigh(d); }
    return d;
  }

  lemma InTableLow(d: nat)
    requires 2 <= d < 67 && d % 2 != 0 && d % 3 != 0 && d % 5 != 0 && d % 7 != 0
    ensures d in PRIMES_BELOW_127
  {
  }

  lemma InTableHigh(d: nat)
    requires 67 <= d < 127 && d != 121 && d % 2 != 0 && d % 3 != 0 && d % 5 != 0 && d % 7 != 0
    ensures d in PRIMES_BELOW_127
  {
  }

  /** Trial division by the primes below 127 settles every number below 127 * 127. */
  lemma PrimeByTrial(n: nat)
    requires 127 <= n < 127 * 127 && forall p | p in PRIMES_BELOW_127 :: !Divides(p, n)
    ensures IsPrime(n)
  {
    forall d | 2 <= d < 127
      ensures !Divides(d, n)
    {
      var p := FactorBelow127(d);
      if Divides(d, n) {
        DividesTrans(p, d, n);
      }
    }
    PrimeBySquareBound(n, 127);
  }

  /** b^q is one modulo the 32-bit limit. */
  lemma Powers32()
    ensures PowersTo(1073745729, 22605091, 4294967291, 1)
  {
    PowFirst(1073745729, 4294967291);
    PowDouble(1073745729, 1, 4294967291, 1073745729, 3504919713);
    PowDoubleAdd(1073745729, 2, 4294967291, 3504919713, 2762101756);
    PowDouble(1073745729, 5, 4294967291, 2762101756, 1474251975);
    PowDoubleAdd(1073745729, 10, 4294967291, 1474251975, 4065820878);
    PowDoubleAdd(1073745729, 21, 4294967291, 4065820878, 1820247785);
    PowDouble(1073745729, 43, 4294967291, 1820247785, 3855700258);
    PowDouble(1073745729, 86, 4294967291, 3855700258, 1858816020);
    PowDouble(1073745729, 172, 4294967291, 1858816020, 2210652769);
    PowDoubleAdd(1073745729, 344, 4294967291, 2210652769, 3255072328);
    PowDoubleAdd(1073745729, 689, 4294967291, 3255072328, 2036108090);
    PowDoubleAdd(1073745729, 1379, 4294967291, 2036108090, 2579436866);
    PowDouble(1073745729, 2759, 4294967291, 2579436866, 1810740027);
    PowDoubleAdd(1073745729, 5518, 4294967291, 1810740027, 3638735613);
    PowDoubleAdd(1073745729, 11037, 4294967291, 3638735613, 2142344274);
    PowDouble(1073745729, 22075, 4294967291, 2142344274, 164317185);
    PowDoubleAdd(1073745729, 44150, 4294967291, 164317185, 3827152162);
    PowDouble(1073745729, 88301, 4294967291, 3827152162, 305512203);
    PowDouble(1073745729, 176602, 4294967291, 305512203, 999910711);
    PowDoubleAdd(1073745729, 353204, 4294967291, 999910711, 3852027162);
    PowDouble(1073745729, 706409, 4294967291, 3852027162, 894754220);
    PowDouble(1073745729, 1412818, 4294967291, 894754220, 2824842023);
    PowDouble(1073745729, 2825636, 4294967291, 2824842023, 3541280234);
    PowDoubleAdd(1073745729, 5651272, 4294967291, 3541280234, 4191888076);
    PowDoubleAdd(1073745729, 11302545, 4294967291, 4191888076, 1);
  }

  lemma Powers64Part1()
    ensures PowersTo(11493017446059487016, 20841, 18446744073709551557, 6969370660485990036)
  {
    PowFirst(11493017446059487016, 18446744073709551557);
    PowDouble(11493017446059487016, 1, 18446744073709551557, 11493017446059487016, 707738172700249187);
    PowDoubleAdd(11493017446059487016, 2, 18446744073709551557, 707738172700249187, 12603256085745122044);
    PowDouble(11493017446059487016, 5, 18446744073709551557, 12603256085745122044, 3070276465859542178);
    PowDouble(11493017446059487016, 10, 18446744073709551557, 3070276465859542178, 3445201699927199592);
    PowDouble(11493017446059487016, 20, 18446744073709551557, 3445201699927199592, 5495123995007144820);
    PowDoubleAdd(11493017446059487016, 40, 18446744073709551557, 5495123995007144820, 7267389047912579589);
    PowDouble(11493017446059487016, 81, 18446744073709551557, 7267389047912579589, 2545514892988531501);
    PowDoubleAdd(11493017446059487016, 162, 18446744073709551557, 2545514892988531501, 6769489354311130466);
    PowDoubleAdd(11493017446059487016, 325, 18446744073709551557, 6769489354311130466, 3742076373895185459);
    PowDouble(11493017446059487016, 651, 18446744073709551557, 3742076373895185459, 16893664101364135094);
    PowDoubleAdd(11493017446059487016, 1302, 18446744073709551557, 16893664101364135094, 12570569503449865477);
    PowDouble(11493017446059487016, 2605, 18446744073709551557, 12570569503449865477, 10751228489876979079);
    PowDouble(11493017446059487016, 5210, 18446744073709551557, 10751228489876979079, 18149736518505526008);
    PowDoubleAdd(11493017446059487016, 10420, 18446744073709551557, 18149736518505526008, 6969370660485990036);
  }

  lemma Powers64Part2()
    ensures PowersTo(11493017446059487016, 341459510, 18446744073709551557, 11958245662470757497)
  {
    Powers64Part1();
    PowDouble(11493017446059487016, 20841, 18446744073709551557, 6969370660485990036, 15060727138206098671);
    PowDouble(11493017446059487016, 41682, 18446744073709551557, 15060727138206098671, 13582489635803617490);
    PowDouble(11493017446059487016, 83364, 18446744073709551557, 13582489635803617490, 14122594575804140753);
    PowDouble(11493017446059487016, 166728, 18446744073709551557, 14122594575804140753, 17095689938516471399);
    PowDoubleAdd(11493017446059487016, 333456, 18446744073709551557, 17095689938516471399, 15896713296576974865);
    PowDouble(11493017446059487016, 666913, 18446744073709551557, 15896713296576974865, 8258455027259507795);
    PowDouble(11493017446059487016, 1333826, 18446744073709551557, 8258455027259507795, 3719908085082490393);
    PowDouble(11493017446059487016, 2667652, 18446744073709551557, 3719908085082490393, 5996784432043270228);
    PowDoubleAdd(11493017446059487016, 5335304, 18446744073709551557, 5996784432043270228, 4584556924887289223);
    PowDoubleAdd(11493017446059487016, 10670609, 18446744073709551557, 4584556924887289223, 14264922066832602577);
    PowDouble(11493017446059487016, 21341219, 18446744073709551557, 14264922066832602577, 11038291374004706135);
    PowDoubleAdd(11493017446059487016, 42682438, 18446744073709551557, 11038291374004706135, 9424313153928960846);
    PowDoubleAdd(11493017446059487016, 85364877, 18446744073709551557, 9424313153928960846, 11643026781013480449);
    PowDouble(11493017446059487016, 170729755, 18446744073709551557, 11643026781013480449, 11958245662470757497);
  }

  /** b^q is one modulo the 64-bit limit. */
  lemma Powers64()
    ensures PowersTo(11493017446059487016, 5594472617641, 18446744073709551557, 1)
  {
    Powers64Part2();
    PowDouble(11493017446059487016, 341459510, 18446744073709551557, 11958245662470757497, 2803077620483620943);
    PowDoubleAdd(11493017446059487016, 682919020, 18446744073709551557, 2803077620483620943, 1611602363253227516);
    PowDouble(11493017446059487016, 1365838041, 18446744073709551557, 1611602363253227516, 1067009509658116802);
    PowDoubleAdd(11493017446059487016, 2731676082, 18446744073709551557, 1067009509658116802, 1006968241440882785);
    PowDoubleAdd(11493017446059487016, 5463352165, 18446744073709551557, 1006968241440882785, 3462094952625689253);
    PowDouble(11493017446059487016, 10926704331, 18446744073709551557, 3462094952625689253, 13006730677682223898);
    PowDoubleAdd(11493017446059487016, 21853408662, 18446744073709551557, 13006730677682223898, 8517951063125016168);
    PowDouble(11493017446059487016, 43706817325, 18446744073709551557, 8517951063125016168, 3960158840834210521);
    PowDoubleAdd(11493017446059487016, 87413634650, 18446744073709551557, 3960158840834210521, 12596247304770439012);
    PowDouble(11493017446059487016, 174827269301, 18446744073709551557, 12596247304770439012, 7694063513458488491);
    PowDoubleAdd(11493017446059487016, 349654538602, 18446744073709551557, 7694063513458488491, 387603828884620487);
    PowDouble(11493017446059487016, 699309077205, 18446744073709551557, 387603828884620487, 2519434279401211148);
    PowDouble(11493017446059487016, 1398618154410, 18446744073709551557, 2519434279401211148, 12966300365218243182);
    PowDoubleAdd(11493017446059487016, 2797236308820, 18446744073709551557, 12966300365218243182, 1);
  }

  lemma PowersQ64Part1()
    ensures PowersTo(552689412041, 7976, 5594472617641, 1927498899996)
  {
    PowFirst(552689412041, 5594472617641);
    PowDoubleAdd(552689412041, 1, 5594472617641, 552689412041, 4547743987999);
    PowDoubleAdd(552689412041, 3, 5594472617641, 4547743987999, 1727276639574);
    PowDoubleAdd(552689412041, 7, 5594472617641, 1727276639574, 772046452934);
    PowDoubleAdd(552689412041, 15, 5594472617641, 772046452934, 4691607620648);
    PowDouble(552689412041, 31, 5594472617641, 4691607620648, 3560904544263);
    PowDouble(552689412041, 62, 5594472617641, 3560904544263, 4508011871779);
    PowDoubleAdd(552689412041, 124, 5594472617641, 4508011871779, 1258910836664);
    PowDouble(552689412041, 249, 5594472617641, 1258910836664, 1975527417319);
    PowDoubleAdd(552689412041, 498, 5594472617641, 1975527417319, 3699452724355);
    PowDouble(552689412041, 997, 5594472617641, 3699452724355, 403582499579);
    PowDouble(552689412041, 1994, 5594472617641, 403582499579, 721603854030);
    PowDouble(552689412041, 3988, 5594472617641, 721603854030, 1927498899996);
  }

  /** Powers certifying the prime factor q of the 64-bit limit minus one. */
  lemma PowersQ64()
    ensures PowersTo(552689412041, 32670361, 5594472617641, 1)
  {
    PowersQ64Part1();
    PowDouble(552689412041, 7976, 5594472617641, 1927498899996, 2891026069467);
    PowDouble(552689412041, 15952, 5594472617641, 2891026069467, 3556407971423);
    PowDoubleAdd(552689412041, 31904, 5594472617641, 3556407971423, 222490188437);
    PowDouble(552689412041, 63809, 5594472617641, 222490188437, 1804947334860);
    PowDoubleAdd(552689412041, 127618, 5594472617641, 1804947334860, 883484856093);
    PowDouble(552689412041, 255237, 5594472617641, 883484856093, 3705595166059);
    PowDouble(552689412041, 510474, 5594472617641, 3705595166059, 843176810567);
    PowDoubleAdd(552689412041, 1020948, 5594472617641, 843176810567, 2608420594505);
    PowDoubleAdd(552689412041, 2041897, 5594472617641, 2608420594505, 479582573363);
    PowDouble(552689412041, 4083795, 5594472617641, 479582573363, 795729808851);
    PowDouble(552689412041, 8167590, 5594472617641, 795729808851, 2680754808837);
    PowDoubleAdd(552689412041, 16335180, 5594472617641, 2680754808837, 1);
  }
  /** The two cofactor powers of the same certificate. */
  lemma PowersQ64a()
    ensures PowersTo(552689412041, 2131, 5594472617641, 1852426820963)
    ensures PowersTo(552689412041, 15331, 5594472617641, 1346892610175)
  {
    PowFirst(552689412041, 5594472617641);
    PowDouble(552689412041, 1, 5594472617641, 552689412041, 1367522132537);
    PowDouble(552689412041, 2, 5594472617641, 1367522132537, 4116572152014);
    PowDouble(552689412041, 4, 5594472617641, 4116572152014, 948608969768);
    PowDouble(552689412041, 8, 5594472617641, 948608969768, 950901804214);
    PowDoubleAdd(552689412041, 16, 5594472617641, 950901804214, 4724465677733);
    PowDouble(552689412041, 33, 5594472617641, 4724465677733, 5051692401197);
    PowDoubleAdd(552689412041, 66, 5594472617641, 5051692401197, 5153863569035);
    PowDouble(552689412041, 133, 5594472617641, 5153863569035, 4874838264003);
    PowDouble(552689412041, 266, 5594472617641, 4874838264003, 1549243108211);
    PowDoubleAdd(552689412041, 532, 5594472617641, 1549243108211, 5025837931916);
    PowDoubleAdd(552689412041, 1065, 5594472617641, 5025837931916, 1852426820963);
    PowDoubleAdd(552689412041, 1, 5594472617641, 552689412041, 4547743987999);
    PowDoubleAdd(552689412041, 3, 5594472617641, 4547743987999, 1727276639574);
    PowDouble(552689412041, 7, 5594472617641, 1727276639574, 1052288259049);
    PowDoubleAdd(552689412041, 14, 5594472617641, 1052288259049, 3214652403668);
    PowDoubleAdd(552689412041, 29, 5594472617641, 3214652403668, 5356572467510);
    PowDoubleAdd(552689412041, 59, 5594472617641, 5356572467510, 3866302258321);
    PowDoubleAdd(552689412041, 119, 5594472617641, 3866302258321, 2357377625368);
    PowDoubleAdd(552689412041, 239, 5594472617641, 2357377625368, 1780912999998);
    PowDouble(552689412041, 479, 5594472617641, 1780912999998, 5092139528736);
    PowDouble(552689412041, 958, 5594472617641, 5092139528736, 3189632930929);
    PowDouble(552689412041, 1916, 5594472617641, 3189632930929, 4128103346875);
    PowDoubleAdd(552689412041, 3832, 5594472617641, 4128103346875, 5237160311195);
    PowDoubleAdd(552689412041, 7665, 5594472617641, 5237160311195, 1346892610175);
  }

  /** Powers certifying the prime factor q of the 32-bit limit minus one. */
  lemma PowersQ32()
    ensures PowersTo(12997486, 4163, 22605091, 18020114)
    ensures PowersTo(12997486, 20815, 22605091, 1)
  {
    PowFirst(12997486, 22605091);
    PowDouble(12997486, 1, 22605091, 12997486, 15749896);
    PowDouble(12997486, 2, 22605091, 15749896, 20018307);
    PowDouble(12997486, 4, 22605091, 20018307, 5450291);
    PowDouble(12997486, 8, 22605091, 5450291, 5430307);
    PowDouble(12997486, 16, 22605091, 5430307, 5930204);
    PowDoubleAdd(12997486, 32, 22605091, 5930204, 15207802);
    PowDouble(12997486, 65, 22605091, 15207802, 12026913);
    PowDouble(12997486, 130, 22605091, 12026913, 4554037);
    PowDouble(12997486, 260, 22605091, 4554037, 8813600);
    PowDouble(12997486, 520, 22605091, 8813600, 20585057);
    PowDoubleAdd(12997486, 1040, 22605091, 20585057, 6755881);
    PowDoubleAdd(12997486, 2081, 22605091, 6755881, 18020114);
    PowDoubleAdd(12997486, 2, 22605091, 15749896, 15878917);
    PowDouble(12997486, 5, 22605091, 15878917, 17047605);
    PowDouble(12997486, 10, 22605091, 17047605, 20940713);
    PowDouble(12997486, 20, 22605091, 20940713, 13250289);
    PowDoubleAdd(12997486, 40, 22605091, 13250289, 12940551);
    PowDouble(12997486, 81, 22605091, 12940551, 1603240);
    PowDoubleAdd(12997486, 162, 22605091, 1603240, 2923240);
    PowDouble(12997486, 325, 22605091, 2923240, 19967234);
    PowDouble(12997486, 650, 22605091, 19967234, 13045920);
    PowDoubleAdd(12997486, 1300, 22605091, 13045920, 14680320);
    PowDoubleAdd(12997486, 2601, 22605091, 14680320, 6334516);
    PowDoubleAdd(12997486, 5203, 22605091, 6334516, 73082);
    PowDoubleAdd(12997486, 10407, 22605091, 73082, 1);
  }
  /** The other cofactor powers of the same certificate. */
  lemma PowersQ32a()
    ensures PowersTo(12997486, 115, 22605091, 13954217)
    ensures PowersTo(12997486, 905, 22605091, 22417619)
  {
    PowFirst(12997486, 22605091);
    PowDoubleAdd(12997486, 1, 22605091, 12997486, 16066194);
    PowDoubleAdd(12997486, 3, 22605091, 16066194, 2694678);
    PowDouble(12997486, 7, 22605091, 2694678, 14377391);
    PowDouble(12997486, 14, 22605091, 14377391, 10769029);
    PowDoubleAdd(12997486, 28, 22605091, 10769029, 11323657);
    PowDoubleAdd(12997486, 57, 22605091, 11323657, 13954217);
    PowDouble(12997486, 28, 22605091, 10769029, 2201173);
    PowDoubleAdd(12997486, 56, 22605091, 2201173, 5299239);
    PowDouble(12997486, 113, 22605091, 5299239, 13716368);
    PowDouble(12997486, 226, 22605091, 13716368, 14692256);
    PowDoubleAdd(12997486, 452, 22605091, 14692256, 22417619);
  }

  lemma Factor32IsPrime()
    ensures IsPrime(22605091)
  {
    var n, b := 22605091, 12997486;
    TinyPrimes();
    PowersQ32();
    PowersQ32a();
    forall p | p >= 2 && Divides(p, n)
      ensures ExactOrder(b, 20815, p)
    {
      OneModDivisor(b, 20815, n, p);
      PowerOrder(n, b, 115, 181, 13954217, 19569746, p);
      PowerOrder(n, b, 905, 23, 22417619, 7421446, p);
      PowerOrder(n, b, 4163, 5, 18020114, 891059, p);
      PowMul(b, 5, 23);
      PowMul(b, 5, 181);
      ComposeOrder(Pow(b, 5), 181, 23, -8, 63, p);
      ComposeOrder(b, 4163, 5, 2, -1665, p);
    }
    PrimeByOrder(n, b, 20815);
  }

  lemma Factor64IsPrime()
    ensures IsPrime(5594472617641)
  {
    var n, b := 5594472617641, 552689412041;
    PrimeByTrial(2131);
    PrimeByTrial(15331);
    PowersQ64();
    PowersQ64a();
    forall p | p >= 2 && Divides(p, n)
      ensures ExactOrder(b, 32670361, p)
    {
      OneModDivisor(b, 32670361, n, p);
      PowerOrder(n, b, 15331, 2131, 1346892610175, 1933328135809, p);
      PowerOrder(n, b, 2131, 15331, 1852426820963, 3161697676777, p);
      ComposeOrder(b, 2131, 15331, -3518, 489, p);
    }
    PrimeByOrder(n, b, 32670361);
  }

  /** 0xFFFFFFFB is prime. */
  lemma Limit32IsPrime()
    ensures IsPrime(LIMIT_32)
  {
    Factor32IsPrime();
    Powers32();
    PowFirst(1073745729, LIMIT_32);
    PrimeByOnePrime(LIMIT_32, 1073745729, 22605091, 1771216906);
  }

  /** 0xFFFFFFFFFFFFFFC5 is prime. */
  lemma Limit64IsPrime()
    ensures IsPrime(LIMIT_64)
  {
    Factor64IsPrime();
    Powers64();
    PowFirst(11493017446059487016, LIMIT_64);
    PrimeByOnePrime(LIMIT_64, 11493017446059487016, 5594472617641, 1898613474652435203);
  }

  lemma TinyPrimes()
    ensures IsPrime(5) && IsPrime(23) && IsPrime(181)
  {
  }

  lemma NotPrime(n: nat, d: nat, k: nat)
    requires n == d * k && d >= 2 && k >= 2
    ensures !IsPrime(n)
  {
    MulMonotone(2, k, d);
    DividesProduct(d, k);
  }

  /** Extends a prime-free range by an even number and by a number with factors d and k. */
  lemma Extend(lo: nat, n: nat, d: nat, k: nat)
    requires NoPrimeIn(lo, n) && n >= 4 && n % 2 == 0 && n + 1 == d * k && d >= 2 && k >= 2
    ensures NoPrimeIn(lo, n + 2)
  {
    NotPrime(n, 2, n / 2);
    NotPrime(n + 1, d, k);
  }

  /** Above 0xFFFFFFFB there is no 32-bit prime. */
  lemma NoPrimeAboveLimit32()
    ensures NoPrimeIn(LIMIT_32 + 1, 0x1_0000_0000)
  {
    var lo := LIMIT_32 + 1;
    Extend(lo, 4294967292, 9241, 464773);
    Extend(lo, 4294967294, 3, 1431655765);
  }

  /** Above 0xFFFFFFFFFFFFFFC5 there is no 64-bit prime. */
  lemma NoPrimeAboveLimit64()
    ensures NoPrimeIn(LIMIT_64 + 1, 0x1_0000_0000_0000_0000)
  {
    var lo := LIMIT_64 + 1;
    Extend(lo, 18446744073709551558, 41, 449920587163647599);
    Extend(lo, 18446744073709551560, 3, 6148914691236517187);
    Extend(lo, 18446744073709551562, 29, 636094623231363847);
    Extend(lo, 18446744073709551564, 5, 3689348814741910313);
    Extend(lo, 18446744073709551566, 3, 6148914691236517189);
    Extend(lo, 18446744073709551568, 31, 595056260442243599);
    Extend(lo, 18446744073709551570, 11071, 1666222028155501);
    Extend(lo, 18446744073709551572, 3, 6148914691236517191);
    Extend(lo, 18446744073709551574, 5, 3689348814741910315);
    Extend(lo, 18446744073709551576, 139646831, 132095686967);
    Extend(lo, 18446744073709551578, 3, 6148914691236517193);
    Extend(lo, 18446744073709551580, 17, 1085102592571150093);
    Extend(lo, 18446744073709551582, 827, 22305615566758829);
    Extend(lo, 18446744073709551584, 3, 6148914691236517195);
    Extend(lo, 18446744073709551586, 13, 1418980313362273199);
    Extend(lo, 18446744073709551588, 11, 1676976733973595599);
    Extend(lo, 18446744073709551590, 3, 6148914691236517197);
    Extend(lo, 18446744073709551592, 7, 2635249153387078799);
    Extend(lo, 18446744073709551594, 5, 3689348814741910319);
    Extend(lo, 18446744073709551596, 3, 6148914691236517199);
    Extend(lo, 18446744073709551598, 19, 970881267037344821);
    Extend(lo, 18446744073709551600, 53, 348051774975651917);
    Extend(lo, 18446744073709551602, 3, 6148914691236517201);
    Extend(lo, 18446744073709551604, 5, 3689348814741910321);
    Extend(lo, 18446744073709551606, 7, 2635249153387078801);
    Extend(lo, 18446744073709551608, 3, 6148914691236517203);
    Extend(lo, 18446744073709551610, 11, 1676976733973595601);
    Extend(lo, 18446744073709551612, 13, 1418980313362273201);
    Extend(lo, 18446744073709551614, 3, 6148914691236517205);
  }
}
