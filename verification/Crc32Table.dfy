/** The lookup table of the byte-wise CRC, entry by entry as the firmware has it, and the proof
    that every entry is what its index leaves after eight division steps. */
module Crc32Table {
  import opened Crc32Words

  /** One step of the division on a machine word. */
  function Bit(crc: bv32): bv32 {
    if crc & 0x8000_0000 != 0 then (crc << 1) ^ 0x04c1_1db7 else crc << 1
  }

  function Bits4(crc: bv32): bv32 { Bit(Bit(Bit(Bit(crc)))) }

  function Bits8(crc: bv32): bv32 { Bits4(Bits4(crc)) }

  function Row0(lo: bv32): bv32 {
    if lo == 0 then 0x0000_0000 else if lo == 1 then 0x04c1_1db7 else if lo == 2 then 0x0982_3b6e
    else if lo == 3 then 0x0d43_26d9 else if lo == 4 then 0x1304_76dc else if lo == 5 then 0x17c5_6b6b
    else if lo == 6 then 0x1a86_4db2 else if lo == 7 then 0x1e47_5005 else if lo == 8 then 0x2608_edb8
    else if lo == 9 then 0x22c9_f00f else if lo == 10 then 0x2f8a_d6d6 else if lo == 11 then 0x2b4b_cb61
    else if lo == 12 then 0x350c_9b64 else if lo == 13 then 0x31cd_86d3 else if lo == 14 then 0x3c8e_a00a
    else 0x384f_bdbd
  }

  function Row1(lo: bv32): bv32 {
    if lo == 0 then 0x4c11_db70 else if lo == 1 then 0x48d0_c6c7 else if lo == 2 then 0x4593_e01e
    else if lo == 3 then 0x4152_fda9 else if lo == 4 then 0x5f15_adac else if lo == 5 then 0x5bd4_b01b
    else if lo == 6 then 0x5697_96c2 else if lo == 7 then 0x5256_8b75 else if lo == 8 then 0x6a19_36c8
    else if lo == 9 then 0x6ed8_2b7f else if lo == 10 then 0x639b_0da6 else if lo == 11 then 0x675a_1011
    else if lo == 12 then 0x791d_4014 else if lo == 13 then 0x7ddc_5da3 else if lo == 14 then 0x709f_7b7a
    else 0x745e_66cd
  }

  function Row2(lo: bv32): bv32 {
    if lo == 0 then 0x9823_b6e0 else if lo == 1 then 0x9ce2_ab57 else if lo == 2 then 0x91a1_8d8e
    else if lo == 3 then 0x9560_9039 else if lo == 4 then 0x8b27_c03c else if lo == 5 then 0x8fe6_dd8b
    else if lo == 6 then 0x82a5_fb52 else if lo == 7 then 0x8664_e6e5 else if lo == 8 then 0xbe2b_5b58
    else if lo == 9 then 0xbaea_46ef else if lo == 10 then 0xb7a9_6036 else if lo == 11 then 0xb368_7d81
    else if lo == 12 then 0xad2f_2d84 else if lo == 13 then 0xa9ee_3033 else if lo == 14 then 0xa4ad_16ea
    else 0xa06c_0b5d
  }

  function Row3(lo: bv32): bv32 {
    if lo == 0 then 0xd432_6d90 else if lo == 1 then 0xd0f3_7027 else if lo == 2 then 0xddb0_56fe
    else if lo == 3 then 0xd971_4b49 else if lo == 4 then 0xc736_1b4c else if lo == 5 then 0xc3f7_06fb
    else if lo == 6 then 0xceb4_2022 else if lo == 7 then 0xca75_3d95 else if lo == 8 then 0xf23a_8028
    else if lo == 9 then 0xf6fb_9d9f else if lo == 10 then 0xfbb8_bb46 else if lo == 11 then 0xff79_a6f1
    else if lo == 12 then 0xe13e_f6f4 else if lo == 13 then 0xe5ff_eb43 else if lo == 14 then 0xe8bc_cd9a
    else 0xec7d_d02d
  }

  function Row4(lo: bv32): bv32 {
    if lo == 0 then 0x3486_7077 else if lo == 1 then 0x3047_6dc0 else if lo == 2 then 0x3d04_4b19
    else if lo == 3 then 0x39c5_56ae else if lo == 4 then 0x2782_06ab else if lo == 5 then 0x2343_1b1c
    else if lo == 6 then 0x2e00_3dc5 else if lo == 7 then 0x2ac1_2072 else if lo == 8 then 0x128e_9dcf
    else if lo == 9 then 0x164f_8078 else if lo == 10 then 0x1b0c_a6a1 else if lo == 11 then 0x1fcd_bb16
    else if lo == 12 then 0x018a_eb13 else if lo == 13 then 0x054b_f6a4 else if lo == 14 then 0x0808_d07d
    else 0x0cc9_cdca
  }

  function Row5(lo: bv32): bv32 {
    if lo == 0 then 0x7897_ab07 else if lo == 1 then 0x7c56_b6b0 else if lo == 2 then 0x7115_9069
    else if lo == 3 then 0x75d4_8dde else if lo == 4 then 0x6b93_dddb else if lo == 5 then 0x6f52_c06c
    else if lo == 6 then 0x6211_e6b5 else if lo == 7 then 0x66d0_fb02 else if lo == 8 then 0x5e9f_46bf
    else if lo == 9 then 0x5a5e_5b08 else if lo == 10 then 0x571d_7dd1 else if lo == 11 then 0x53dc_6066
    else if lo == 12 then 0x4d9b_3063 else if lo == 13 then 0x495a_2dd4 else if lo == 14 then 0x4419_0b0d
    else 0x40d8_16ba
  }

  function Row6(lo: bv32): bv32 {
    if lo == 0 then 0xaca5_c697 else if lo == 1 then 0xa864_db20 else if lo == 2 then 0xa527_fdf9
    else if lo == 3 then 0xa1e6_e04e else if lo == 4 then 0xbfa1_b04b else if lo == 5 then 0xbb60_adfc
    else if lo == 6 then 0xb623_8b25 else if lo == 7 then 0xb2e2_9692 else if lo == 8 then 0x8aad_2b2f
    else if lo == 9 then 0x8e6c_3698 else if lo == 10 then 0x832f_1041 else if lo == 11 then 0x87ee_0df6
    else if lo == 12 then 0x99a9_5df3 else if lo == 13 then 0x9d68_4044 else if lo == 14 then 0x902b_669d
    else 0x94ea_7b2a
  }

  function Row7(lo: bv32): bv32 {
    if lo == 0 then 0xe0b4_1de7 else if lo == 1 then 0xe475_0050 else if lo == 2 then 0xe936_2689
    else if lo == 3 then 0xedf7_3b3e else if lo == 4 then 0xf3b0_6b3b else if lo == 5 then 0xf771_768c
    else if lo == 6 then 0xfa32_5055 else if lo == 7 then 0xfef3_4de2 else if lo == 8 then 0xc6bc_f05f
    else if lo == 9 then 0xc27d_ede8 else if lo == 10 then 0xcf3e_cb31 else if lo == 11 then 0xcbff_d686
    else if lo == 12 then 0xd5b8_8683 else if lo == 13 then 0xd179_9b34 else if lo == 14 then 0xdc3a_bded
    else 0xd8fb_a05a
  }

  function Row8(lo: bv32): bv32 {
    if lo == 0 then 0x690c_e0ee else if lo == 1 then 0x6dcd_fd59 else if lo == 2 then 0x608e_db80
    else if lo == 3 then 0x644f_c637 else if lo == 4 then 0x7a08_9632 else if lo == 5 then 0x7ec9_8b85
    else if lo == 6 then 0x738a_ad5c else if lo == 7 then 0x774b_b0eb else if lo == 8 then 0x4f04_0d56
    else if lo == 9 then 0x4bc5_10e1 else if lo == 10 then 0x4686_3638 else if lo == 11 then 0x4247_2b8f
    else if lo == 12 then 0x5c00_7b8a else if lo == 13 then 0x58c1_663d else if lo == 14 then 0x5582_40e4
    else 0x5143_5d53
  }

  function Row9(lo: bv32): bv32 {
    if lo == 0 then 0x251d_3b9e else if lo == 1 then 0x21dc_2629 else if lo == 2 then 0x2c9f_00f0
    else if lo == 3 then 0x285e_1d47 else if lo == 4 then 0x3619_4d42 else if lo == 5 then 0x32d8_50f5
    else if lo == 6 then 0x3f9b_762c else if lo == 7 then 0x3b5a_6b9b else if lo == 8 then 0x0315_d626
    else if lo == 9 then 0x07d4_cb91 else if lo == 10 then 0x0a97_ed48 else if lo == 11 then 0x0e56_f0ff
    else if lo == 12 then 0x1011_a0fa else if lo == 13 then 0x14d0_bd4d else if lo == 14 then 0x1993_9b94
    else 0x1d52_8623
  }

  function RowA(lo: bv32): bv32 {
    if lo == 0 then 0xf12f_560e else if lo == 1 then 0xf5ee_4bb9 else if lo == 2 then 0xf8ad_6d60
        else if lo == 3 then 0xfc6c_70d7
    else if lo == 4 then 0xe22b_20d2 else if lo == 5 then 0xe6ea_3d65 else if lo == 6 then 0xeba9_1bbc
        else if lo == 7 then 0xef68_060b
    else if lo == 8 then 0xd727_bbb6 else if lo == 9 then 0xd3e6_a601 else if lo == 10 then 0xdea5_80d8
        else if lo == 11 then 0xda64_9d6f
    else if lo == 12 then 0xc423_cd6a else if lo == 13 then 0xc0e2_d0dd
        else if lo == 14 then 0xcda1_f604 else 0xc960_ebb3
  }

  function RowB(lo: bv32): bv32 {
    if lo == 0 then 0xbd3e_8d7e else if lo == 1 then 0xb9ff_90c9 else if lo == 2 then 0xb4bc_b610
        else if lo == 3 then 0xb07d_aba7
    else if lo == 4 then 0xae3a_fba2 else if lo == 5 then 0xaafb_e615 else if lo == 6 then 0xa7b8_c0cc
        else if lo == 7 then 0xa379_dd7b
    else if lo == 8 then 0x9b36_60c6 else if lo == 9 then 0x9ff7_7d71 else if lo == 10 then 0x92b4_5ba8
        else if lo == 11 then 0x9675_461f
    else if lo == 12 then 0x8832_161a else if lo == 13 then 0x8cf3_0bad
        else if lo == 14 then 0x81b0_2d74 else 0x8571_30c3
  }

  function RowC(lo: bv32): bv32 {
    if lo == 0 then 0x5d8a_9099 else if lo == 1 then 0x594b_8d2e else if lo == 2 then 0x5408_abf7
        else if lo == 3 then 0x50c9_b640
    else if lo == 4 then 0x4e8e_e645 else if lo == 5 then 0x4a4f_fbf2 else if lo == 6 then 0x470c_dd2b
        else if lo == 7 then 0x43cd_c09c
    else if lo == 8 then 0x7b82_7d21 else if lo == 9 then 0x7f43_6096 else if lo == 10 then 0x7200_464f
        else if lo == 11 then 0x76c1_5bf8
    else if lo == 12 then 0x6886_0bfd else if lo == 13 then 0x6c47_164a
        else if lo == 14 then 0x6104_3093 else 0x65c5_2d24
  }

  function RowD(lo: bv32): bv32 {
    if lo == 0 then 0x119b_4be9 else if lo == 1 then 0x155a_565e else if lo == 2 then 0x1819_7087
        else if lo == 3 then 0x1cd8_6d30
    else if lo == 4 then 0x029f_3d35 else if lo == 5 then 0x065e_2082 else if lo == 6 then 0x0b1d_065b
        else if lo == 7 then 0x0fdc_1bec
    else if lo == 8 then 0x3793_a651 else if lo == 9 then 0x3352_bbe6 else if lo == 10 then 0x3e11_9d3f
        else if lo == 11 then 0x3ad0_8088
    else if lo == 12 then 0x2497_d08d else if lo == 13 then 0x2056_cd3a
        else if lo == 14 then 0x2d15_ebe3 else 0x29d4_f654
  }

  function RowE(lo: bv32): bv32 {
    if lo == 0 then 0xc5a9_2679 else if lo == 1 then 0xc168_3bce else if lo == 2 then 0xcc2b_1d17
        else if lo == 3 then 0xc8ea_00a0
    else if lo == 4 then 0xd6ad_50a5 else if lo == 5 then 0xd26c_4d12 else if lo == 6 then 0xdf2f_6bcb
        else if lo == 7 then 0xdbee_767c
    else if lo == 8 then 0xe3a1_cbc1 else if lo == 9 then 0xe760_d676 else if lo == 10 then 0xea23_f0af
        else if lo == 11 then 0xeee2_ed18
    else if lo == 12 then 0xf0a5_bd1d else if lo == 13 then 0xf464_a0aa
        else if lo == 14 then 0xf927_8673 else 0xfde6_9bc4
  }

  function RowF(lo: bv32): bv32 {
    if lo == 0 then 0x89b8_fd09 else if lo == 1 then 0x8d79_e0be else if lo == 2 then 0x803a_c667
        else if lo == 3 then 0x84fb_dbd0
    else if lo == 4 then 0x9abc_8bd5 else if lo == 5 then 0x9e7d_9662 else if lo == 6 then 0x933e_b0bb
        else if lo == 7 then 0x97ff_ad0c
    else if lo == 8 then 0xafb0_10b1 else if lo == 9 then 0xab71_0d06 else if lo == 10 then 0xa632_2bdf
        else if lo == 11 then 0xa2f3_3668
    else if lo == 12 then 0xbcb4_666d else if lo == 13 then 0xb875_7bda
        else if lo == 14 then 0xb536_5d03 else 0xb1f7_40b4
  }

  /** `crc32_table`. */
  function Table(i: bv32): bv32 {
    if i >> 4 == 0 then Row0(i & 0xf)
    else if i >> 4 == 1 then Row1(i & 0xf)
    else if i >> 4 == 2 then Row2(i & 0xf)
    else if i >> 4 == 3 then Row3(i & 0xf)
    else if i >> 4 == 4 then Row4(i & 0xf)
    else if i >> 4 == 5 then Row5(i & 0xf)
    else if i >> 4 == 6 then Row6(i & 0xf)
    else if i >> 4 == 7 then Row7(i & 0xf)
    else if i >> 4 == 8 then Row8(i & 0xf)
    else if i >> 4 == 9 then Row9(i & 0xf)
    else if i >> 4 == 10 then RowA(i & 0xf)
    else if i >> 4 == 11 then RowB(i & 0xf)
    else if i >> 4 == 12 then RowC(i & 0xf)
    else if i >> 4 == 13 then RowD(i & 0xf)
    else if i >> 4 == 14 then RowE(i & 0xf)
    else RowF(i & 0xf)
  }

  lemma {:induction false} Row0Correct(lo: bv32)
    requires lo < 16
    ensures Row0(lo) == Bits8((0x00 | lo) << 24)
  {
  }

  lemma {:induction false} Row1Correct(lo: bv32)
    requires lo < 16
    ensures Row1(lo) == Bits8((0x10 | lo) << 24)
  {
  }

  lemma {:induction false} Row2Correct(lo: bv32)
    requires lo < 16
    ensures Row2(lo) == Bits8((0x20 | lo) << 24)
  {
  }

  lemma {:induction false} Row3Correct(lo: bv32)
    requires lo < 16
    ensures Row3(lo) == Bits8((0x30 | lo) << 24)
  {
  }

  lemma {:induction false} Row4Correct(lo: bv32)
    requires lo < 16
    ensures Row4(lo) == Bits8((0x40 | lo) << 24)
  {
  }

  lemma {:induction false} Row5Correct(lo: bv32)
    requires lo < 16
    ensures Row5(lo) == Bits8((0x50 | lo) << 24)
  {
  }

  lemma {:induction false} Row6Correct(lo: bv32)
    requires lo < 16
    ensures Row6(lo) == Bits8((0x60 | lo) << 24)
  {
  }

  lemma {:induction false} Row7Correct(lo: bv32)
    requires lo < 16
    ensures Row7(lo) == Bits8((0x70 | lo) << 24)
  {
  }

  lemma {:induction false} Row8Correct(lo: bv32)
    requires lo < 16
    ensures Row8(lo) == Bits8((0x80 | lo) << 24)
  {
  }

  lemma {:induction false} Row9Correct(lo: bv32)
    requires lo < 16
    ensures Row9(lo) == Bits8((0x90 | lo) << 24)
  {
  }

  lemma {:induction false} RowACorrect(lo: bv32)
    requires lo < 16
    ensures RowA(lo) == Bits8((0xa0 | lo) << 24)
  {
  }

  lemma {:induction false} RowBCorrect(lo: bv32)
    requires lo < 16
    ensures RowB(lo) == Bits8((0xb0 | lo) << 24)
  {
  }

  lemma {:induction false} RowCCorrect(lo: bv32)
    requires lo < 16
    ensures RowC(lo) == Bits8((0xc0 | lo) << 24)
  {
  }

  lemma {:induction false} RowDCorrect(lo: bv32)
    requires lo < 16
    ensures RowD(lo) == Bits8((0xd0 | lo) << 24)
  {
  }

  lemma {:induction false} RowECorrect(lo: bv32)
    requires lo < 16
    ensures RowE(lo) == Bits8((0xe0 | lo) << 24)
  {
  }

  lemma {:induction false} RowFCorrect(lo: bv32)
    requires lo < 16
    ensures RowF(lo) == Bits8((0xf0 | lo) << 24)
  {
  }

  lemma {:induction false} TableCorrect(i: bv32)
    requires i < 256
    ensures Table(i) == Bits8(i << 24)
  {
    var hi, lo := i >> 4, i & 0xf;
    assert hi < 16 && lo < 16 && (hi << 4) | lo == i;
    if hi == 0 { Row0Correct(lo); }
    else if hi == 1 { Row1Correct(lo); }
    else if hi == 2 { Row2Correct(lo); }
    else if hi == 3 { Row3Correct(lo); }
    else if hi == 4 { Row4Correct(lo); }
    else if hi == 5 { Row5Correct(lo); }
    else if hi == 6 { Row6Correct(lo); }
    else if hi == 7 { Row7Correct(lo); }
    else if hi == 8 { Row8Correct(lo); }
    else if hi == 9 { Row9Correct(lo); }
    else if hi == 10 { RowACorrect(lo); }
    else if hi == 11 { RowBCorrect(lo); }
    else if hi == 12 { RowCCorrect(lo); }
    else if hi == 13 { RowDCorrect(lo); }
    else if hi == 14 { RowECorrect(lo); }
    else { RowFCorrect(lo); }
  }

  // ----- machine words as bits -------------------------------------------------------------------------

  function ToWord(v: bv32): Word {
    [
      v & 0x8000_0000 != 0, v & 0x4000_0000 != 0, v & 0x2000_0000 != 0, v & 0x1000_0000 != 0,
      v & 0x0800_0000 != 0, v & 0x0400_0000 != 0, v & 0x0200_0000 != 0, v & 0x0100_0000 != 0,
      v & 0x0080_0000 != 0, v & 0x0040_0000 != 0, v & 0x0020_0000 != 0, v & 0x0010_0000 != 0,
      v & 0x0008_0000 != 0, v & 0x0004_0000 != 0, v & 0x0002_0000 != 0, v & 0x0001_0000 != 0,
      v & 0x0000_8000 != 0, v & 0x0000_4000 != 0, v & 0x0000_2000 != 0, v & 0x0000_1000 != 0,
      v & 0x0000_0800 != 0, v & 0x0000_0400 != 0, v & 0x0000_0200 != 0, v & 0x0000_0100 != 0,
      v & 0x0000_0080 != 0, v & 0x0000_0040 != 0, v & 0x0000_0020 != 0, v & 0x0000_0010 != 0,
      v & 0x0000_0008 != 0, v & 0x0000_0004 != 0, v & 0x0000_0002 != 0, v & 0x0000_0001 != 0
    ]
  }

  lemma {:induction false} ToWordShl(a: bv32)
    ensures ToWord(a << 1) == Shl(ToWord(a))
  {
  }

  /** The bits of a word, those of the polynomial flipped. */
  function Flipped(w: Word): Word {
    [
      w[0], w[1], w[2], w[3], w[4], !w[5], w[6], w[7],
      !w[8], !w[9], w[10], w[11], w[12], w[13], w[14], !w[15],
      w[16], w[17], w[18], !w[19], !w[20], !w[21], w[22], !w[23],
      !w[24], w[25], !w[26], !w[27], w[28], !w[29], !w[30], !w[31]
    ]
  }

  lemma {:induction false} FlippedOctet0(w: Word, i: nat)
    requires 0 <= i < 8
    ensures Flipped(w)[i] == (w[i] != POLY[i])
  {
  }

  lemma {:induction false} FlippedOctet1(w: Word, i: nat)
    requires 8 <= i < 16
    ensures Flipped(w)[i] == (w[i] != POLY[i])
  {
  }

  lemma {:induction false} FlippedOctet2(w: Word, i: nat)
    requires 16 <= i < 24
    ensures Flipped(w)[i] == (w[i] != POLY[i])
  {
  }

  lemma {:induction false} FlippedOctet3(w: Word, i: nat)
    requires 24 <= i < 32
    ensures Flipped(w)[i] == (w[i] != POLY[i])
  {
  }

  lemma {:induction false} FlippedIsXor(w: Word)
    ensures Flipped(w) == Xor(w, POLY)
  {
    forall i: nat | i < 32 ensures Flipped(w)[i] == (w[i] != POLY[i]) {
      if i < 8 { FlippedOctet0(w, i); }
      else if i < 16 { FlippedOctet1(w, i); }
      else if i < 24 { FlippedOctet2(w, i); }
      else { FlippedOctet3(w, i); }
    }
  }

  lemma {:induction false} ToWordXorPoly(v: bv32)
    ensures ToWord(v ^ 0x04c1_1db7) == Flipped(ToWord(v))
  {
  }

  lemma {:induction false} ToWordShlPoly(c: bv32)
    ensures ToWord((c << 1) ^ 0x04c1_1db7) == Xor(Shl(ToWord(c)), POLY)
  {
    ToWordShl(c);
    ToWordXorPoly(c << 1);
    FlippedIsXor(ToWord(c << 1));
  }

  lemma {:induction false} ToWordBit(c: bv32)
    ensures ToWord(Bit(c)) == Div(ToWord(c))
  {
    ToWordShl(c);
    ToWordShlPoly(c);
  }

  lemma {:induction false} ToWordBits4(c: bv32)
    ensures ToWord(Bits4(c)) == DivN(ToWord(c), 4)
  {
    ToWordBit(c);
    ToWordBit(Bit(c));
    ToWordBit(Bit(Bit(c)));
    ToWordBit(Bit(Bit(Bit(c))));
  }

  /** The value of eight bits, most significant first. */
  function ByteValue(s: seq<bool>): bv32
    requires |s| == 8
  {
    (if s[0] then 0x80 else 0) | (if s[1] then 0x40 else 0) | (if s[2] then 0x20 else 0) | (if s[3] then 0x10 else 0) |
    (if s[4] then 8 else 0) | (if s[5] then 4 else 0) | (if s[6] then 2 else 0) | (if s[7] then 1 else 0)
  }

  /** The bits of a byte. */
  predicate HasBits(v: bv32, s: seq<bool>)
    requires |s| == 8
  {
    && v < 256
    && (v & 0x80 != 0) == s[0] && (v & 0x40 != 0) == s[1] && (v & 0x20 != 0) == s[2] && (v & 0x10 != 0) == s[3]
    && (v & 8 != 0) == s[4] && (v & 4 != 0) == s[5] && (v & 2 != 0) == s[6] && (v & 1 != 0) == s[7]
  }

  lemma {:induction false} ByteValueBits(s: seq<bool>)
    requires |s| == 8
    ensures ByteValue(s) < 256 && ToWord(ByteValue(s) << 24) == Place(s)
  {
    ByteHasBits(s);
    TopBits(ByteValue(s), s);
  }

  lemma {:induction false} ByteHasBits(s: seq<bool>)
    requires |s| == 8
    ensures HasBits(ByteValue(s), s)
  {
  }

  /** Moved to the top of a register. */
  lemma {:induction false} TopBits(v: bv32, s: seq<bool>)
    requires |s| == 8 && HasBits(v, s)
    ensures ToWord(v << 24) == Place(s)
  {
  }

  lemma {:induction false} DivNThen(w: Word, m: nat, n: nat)
    ensures DivN(DivN(w, m), n) == DivN(w, m + n)
    decreases m
  {
    if m > 0 { DivNThen(Div(w), m - 1, n); }
  }

  /** The entry selected by eight bits, as a register. */
  function Entry(s: seq<bool>): Word
    requires |s| == 8
  {
    ToWord(Table(ByteValue(s)))
  }

  /** Every entry of the table is what its index leaves after eight division steps. */
  lemma {:induction false} TableEntry(s: seq<bool>)
    requires |s| == 8
    ensures Entry(s) == DivN(Place(s), 8)
  {
    ByteValueBits(s);
    var i := ByteValue(s);
    TableCorrect(i);
    EightSteps(i << 24);
  }

  lemma {:induction false} EightSteps(c: bv32)
    ensures ToWord(Bits8(c)) == DivN(ToWord(c), 8)
  {
    ToWordBits4(c);
    ToWordBits4(Bits4(c));
    DivNThen(ToWord(c), 4, 4);
  }
}
