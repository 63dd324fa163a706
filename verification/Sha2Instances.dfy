/** SHA-256 and SHA-512 as variants of one hash (FIPS 180-4, sections 4 and 5.3). */
module Sha2Instances {
  import opened Bytes
  import Limbs
  import opened Bits
  import opened Sha2
  import opened Sha2Context

  // ---- The logical functions, on words of w bits ----

  function Shr(b: nat, x: nat): nat {
    x / Pow(2, b)
  }

  /** The rotation macros: `(x >> b) | (x << (w - b))`, the shift to the left cut to w bits. */
  function Rotr(w: nat, b: nat, x: nat): nat
    requires b <= w
  {
    Limbs.Or(x / Pow(2, b), x * Pow(2, w - b) % Pow(2, w))
  }

  /** The macro moves the b low bits to the top. */
  lemma RotrMoves(w: nat, b: nat, x: nat)
    requires b <= w && x < Pow(2, w)
    ensures Rotr(w, b, x) == x / Pow(2, b) + (x % Pow(2, b)) * Pow(2, w - b)
  {
    var p, r := Pow(2, b), Pow(2, w - b);
    PowAdd(2, b, w - b);
    DivFacts(x, p);
    var q, low := x / p, x % p;
    RotrArithmetic(x, p, r, q, low);
    Limbs.OrDisjoint(q, low, w - b);
  }

  lemma RotrArithmetic(x: nat, p: nat, r: nat, q: nat, low: nat)
    requires x == p * q + low && low < p && r > 0 && x < p * r
    ensures q < r && x * r % (p * r) == low * r
  {
    if q >= r { MulMonotone(p, r, q); }
    assert x * r == (p * q + low) * r == q * (p * r) + low * r by { Limbs.Regroup(p, q, low, r); }
    MulMonotone(r, low + 1, p);
    assert r * (low + 1) == low * r + r;
    DivModUnique(x * r, p * r, q, low * r);
  }

  function Xor3(x: nat, y: nat, z: nat): nat {
    Xor(Xor(x, y), z)
  }

  function Ch(w: nat, x: nat, y: nat, z: nat): nat {
    Xor(And(x, y), And(Complement(w, x), z))
  }

  function Complement(w: nat, x: nat): nat {
    Pow(2, w) - 1 - x % Pow(2, w)
  }

  function Maj(x: nat, y: nat, z: nat): nat {
    Xor3(And(x, y), And(x, z), And(y, z))
  }

  // ---- SHA-256 ----

  function Sha256(): Variant {
    Variant(4, K256(), H256(),
            (x: nat, y: nat) => (x + y) % WORD,
            (x: nat) => Xor3(Rotr(32, 2, x), Rotr(32, 13, x), Rotr(32, 22, x)),
            (x: nat) => Xor3(Rotr(32, 6, x), Rotr(32, 11, x), Rotr(32, 25, x)),
            (x: nat) => Xor3(Rotr(32, 7, x), Rotr(32, 18, x), Shr(3, x)),
            (x: nat) => Xor3(Rotr(32, 17, x), Rotr(32, 19, x), Shr(10, x)),
            (x: nat, y: nat, z: nat) => Ch(32, x, y, z),
            (x: nat, y: nat, z: nat) => Maj(x, y, z))
  }

  function K256(): (k: seq<nat>)
    ensures |k| == 64
  {
    seq(64, i requires 0 <= i < 64 => RoundConstants256(i / 8)[i % 8])
  }

  /** Eight of the round constants. */
  function RoundConstants256(row: nat): (k: seq<nat>)
    ensures |k| == 8
  {
    match row
    case 0 => [0x428a_2f98, 0x7137_4491, 0xb5c0_fbcf, 0xe9b5_dba5, 0x3956_c25b, 0x59f1_11f1, 0x923f_82a4, 0xab1c_5ed5]
    case 1 => [0xd807_aa98, 0x1283_5b01, 0x2431_85be, 0x550c_7dc3, 0x72be_5d74, 0x80de_b1fe, 0x9bdc_06a7, 0xc19b_f174]
    case 2 => [0xe49b_69c1, 0xefbe_4786, 0x0fc1_9dc6, 0x240c_a1cc, 0x2de9_2c6f, 0x4a74_84aa, 0x5cb0_a9dc, 0x76f9_88da]
    case 3 => [0x983e_5152, 0xa831_c66d, 0xb003_27c8, 0xbf59_7fc7, 0xc6e0_0bf3, 0xd5a7_9147, 0x06ca_6351, 0x1429_2967]
    case 4 => [0x27b7_0a85, 0x2e1b_2138, 0x4d2c_6dfc, 0x5338_0d13, 0x650a_7354, 0x766a_0abb, 0x81c2_c92e, 0x9272_2c85]
    case 5 => [0xa2bf_e8a1, 0xa81a_664b, 0xc24b_8b70, 0xc76c_51a3, 0xd192_e819, 0xd699_0624, 0xf40e_3585, 0x106a_a070]
    case 6 => [0x19a4_c116, 0x1e37_6c08, 0x2748_774c, 0x34b0_bcb5, 0x391c_0cb3, 0x4ed8_aa4a, 0x5b9c_ca4f, 0x682e_6ff3]
    case _ => [0x748f_82ee, 0x78a5_636f, 0x84c8_7814, 0x8cc7_0208, 0x90be_fffa, 0xa450_6ceb, 0xbef9_a3f7, 0xc671_78f2]
  }

  function H256(): (h: seq<nat>)
    ensures |h| == 8 && forall i :: 0 <= i < 8 ==> h[i] < WORD
  {
    [0x6a09_e667, 0xbb67_ae85, 0x3c6e_f372, 0xa54f_f53a, 0x510e_527f, 0x9b05_688c, 0x1f83_d9ab, 0x5be0_cd19]
  }

  // ---- SHA-512 ----

  function Sha512(): Variant {
    Variant(8, K512(), H512(),
            (x: nat, y: nat) => (x + y) % TWO64,
            (x: nat) => Xor3(Rotr(64, 28, x), Rotr(64, 34, x), Rotr(64, 39, x)),
            (x: nat) => Xor3(Rotr(64, 14, x), Rotr(64, 18, x), Rotr(64, 41, x)),
            (x: nat) => Xor3(Rotr(64, 1, x), Rotr(64, 8, x), Shr(7, x)),
            (x: nat) => Xor3(Rotr(64, 19, x), Rotr(64, 61, x), Shr(6, x)),
            (x: nat, y: nat, z: nat) => Ch(64, x, y, z),
            (x: nat, y: nat, z: nat) => Maj(x, y, z))
  }

  function K512(): (k: seq<nat>)
    ensures |k| == 80
  {
    seq(80, i requires 0 <= i < 80 => RoundConstants512(i / 8)[i % 8])
  }

  /** Eight of the round constants. */
  function RoundConstants512(row: nat): (k: seq<nat>)
    ensures |k| == 8
  {
    match row
    case 0 =>
      [0x428a_2f98_d728_ae22, 0x7137_4491_23ef_65cd, 0xb5c0_fbcf_ec4d_3b2f, 0xe9b5_dba5_8189_dbbc,
       0x3956_c25b_f348_b538, 0x59f1_11f1_b605_d019, 0x923f_82a4_af19_4f9b, 0xab1c_5ed5_da6d_8118]
    case 1 =>
      [0xd807_aa98_a303_0242, 0x1283_5b01_4570_6fbe, 0x2431_85be_4ee4_b28c, 0x550c_7dc3_d5ff_b4e2,
       0x72be_5d74_f27b_896f, 0x80de_b1fe_3b16_96b1, 0x9bdc_06a7_25c7_1235, 0xc19b_f174_cf69_2694]
    case 2 =>
      [0xe49b_69c1_9ef1_4ad2, 0xefbe_4786_384f_25e3, 0x0fc1_9dc6_8b8c_d5b5, 0x240c_a1cc_77ac_9c65,
       0x2de9_2c6f_592b_0275, 0x4a74_84aa_6ea6_e483, 0x5cb0_a9dc_bd41_fbd4, 0x76f9_88da_8311_53b5]
    case 3 =>
      [0x983e_5152_ee66_dfab, 0xa831_c66d_2db4_3210, 0xb003_27c8_98fb_213f, 0xbf59_7fc7_beef_0ee4,
       0xc6e0_0bf3_3da8_8fc2, 0xd5a7_9147_930a_a725, 0x06ca_6351_e003_826f, 0x1429_2967_0a0e_6e70]
    case 4 =>
      [0x27b7_0a85_46d2_2ffc, 0x2e1b_2138_5c26_c926, 0x4d2c_6dfc_5ac4_2aed, 0x5338_0d13_9d95_b3df,
       0x650a_7354_8baf_63de, 0x766a_0abb_3c77_b2a8, 0x81c2_c92e_47ed_aee6, 0x9272_2c85_1482_353b]
    case 5 =>
      [0xa2bf_e8a1_4cf1_0364, 0xa81a_664b_bc42_3001, 0xc24b_8b70_d0f8_9791, 0xc76c_51a3_0654_be30,
       0xd192_e819_d6ef_5218, 0xd699_0624_5565_a910, 0xf40e_3585_5771_202a, 0x106a_a070_32bb_d1b8]
    case 6 =>
      [0x19a4_c116_b8d2_d0c8, 0x1e37_6c08_5141_ab53, 0x2748_774c_df8e_eb99, 0x34b0_bcb5_e19b_48a8,
       0x391c_0cb3_c5c9_5a63, 0x4ed8_aa4a_e341_8acb, 0x5b9c_ca4f_7763_e373, 0x682e_6ff3_d6b2_b8a3]
    case 7 =>
      [0x748f_82ee_5def_b2fc, 0x78a5_636f_4317_2f60, 0x84c8_7814_a1f0_ab72, 0x8cc7_0208_1a64_39ec,
       0x90be_fffa_2363_1e28, 0xa450_6ceb_de82_bde9, 0xbef9_a3f7_b2c6_7915, 0xc671_78f2_e372_532b]
    case 8 =>
      [0xca27_3ece_ea26_619c, 0xd186_b8c7_21c0_c207, 0xeada_7dd6_cde0_eb1e, 0xf57d_4f7f_ee6e_d178,
       0x06f0_67aa_7217_6fba, 0x0a63_7dc5_a2c8_98a6, 0x113f_9804_bef9_0dae, 0x1b71_0b35_131c_471b]
    case _ =>
      [0x28db_77f5_2304_7d84, 0x32ca_ab7b_40c7_2493, 0x3c9e_be0a_15c9_bebc, 0x431d_67c4_9c10_0d4c,
       0x4cc5_d4be_cb3e_42b6, 0x597f_299c_fc65_7e2a, 0x5fcb_6fab_3ad6_faec, 0x6c44_198c_4a47_5817]
  }

  function H512(): (h: seq<nat>)
    ensures |h| == 8 && forall i :: 0 <= i < 8 ==> h[i] < TWO64
  {
    [0x6a09_e667_f3bc_c908, 0xbb67_ae85_84ca_a73b, 0x3c6e_f372_fe94_f82b, 0xa54f_f53a_5f1d_36f1,
      0x510e_527f_ade6_82d1, 0x9b05_688c_2b3e_6c1f, 0x1f83_d9ab_fb41_bd6b, 0x5be0_cd19_137e_2179]
  }

  // ---- Both are lawful ----

  lemma ModularSum(x: nat, y: nat, z: nat, m: nat)
    requires m > 0
    ensures ((x + y) % m + z) % m == (x + (y + z) % m) % m
  {
    DivFacts(x + y, m);
    DivFacts(y + z, m);
    MultipleDrops((x + y) % m + z, (x + y) / m, m);
    MultipleDrops(x + (y + z) % m, (y + z) / m, m);
  }

  lemma MultipleDrops(r: nat, q: nat, m: nat)
    requires m > 0
    ensures m * q >= 0 && (m * q + r) % m == r % m
  {
    DivFacts(r, m);
    assert m * q + m * (r / m) == m * (q + r / m);
    DivModUnique(m * q + r, m, q + r / m, r % m);
  }

  lemma Sha256Lawful()
    ensures Lawful(Sha256())
  {
    var v := Sha256();
    Powers();
    forall x: nat, y: nat
      ensures Sum(v, x, y) == (x + y) % WORD
    {}
    forall x: nat, y: nat, z: nat
      ensures Sum(v, Sum(v, x, y), z) == Sum(v, x, Sum(v, y, z))
    {
      ModularSum(x, y, z, WORD);
    }
    forall law
      ensures Obeys(v, law)
    {}
  }

  lemma Sha512Lawful()
    ensures Lawful(Sha512())
  {
    var v := Sha512();
    Powers();
    forall x: nat, y: nat
      ensures Sum(v, x, y) == (x + y) % TWO64
    {}
    forall x: nat, y: nat, z: nat
      ensures Sum(v, Sum(v, x, y), z) == Sum(v, x, Sum(v, y, z))
    {
      ModularSum(x, y, z, TWO64);
    }
    forall law
      ensures Obeys(v, law)
    {}
  }
}
