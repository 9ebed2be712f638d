/** Structure layouts of mlx5_ifc.h: a structure is the list of its members'
    widths in bits, and a member starts where the members before it end. */
module Layouts {
  import opened Codec

  type Layout = seq<nat>

  // offsetof: the sum of the widths of the first i members
  function Offset(l: Layout, i: nat): nat
    requires i <= |l|
  {
    if i == 0 then 0 else Offset(l, i - 1) + l[i - 1]
  }

  function Member(l: Layout, i: nat): Field
    requires i < |l|
  {
    Field(Offset(l, i), l[i])
  }

  function SizeInBits(l: Layout): nat { Offset(l, |l|) }

  lemma {:induction false} OffsetGap(l: Layout, i: nat, j: nat)
    requires i < j <= |l|
    ensures Offset(l, i) + l[i] <= Offset(l, j)
    decreases j
  {
    if j > i + 1 { OffsetGap(l, i, j - 1); }
  }

  // Distinct members never share a bit, and all lie inside the structure.
  lemma MembersDisjoint(l: Layout, i: nat, j: nat)
    requires i < |l| && j < |l| && i != j
    ensures Disjoint(Member(l, i), Member(l, j))
    ensures Member(l, i).off + Member(l, i).width <= SizeInBits(l)
  {
    if i < j { OffsetGap(l, i, j); } else { OffsetGap(l, j, i); }
    OffsetGap(l, i, |l|);
  }

  /* ---- resource_dump ---- */

  const RESOURCE_DUMP: Layout :=
    [1, 1, 10, 4, 16, 16, 16, 32, 32, 16, 16, 32, 64, 32, 32, 64, 52 * 32]

  const MORE_DUMP := Field(0, 1)
  const INLINE_DUMP := Field(1, 1)
  const SEQ_NUM := Field(12, 4)
  const SEGMENT_TYPE := Field(16, 16)
  const VHCA_ID := Field(48, 16)
  const INDEX1 := Field(64, 32)
  const INDEX2 := Field(96, 32)
  const NUM_OF_OBJ1 := Field(128, 16)
  const NUM_OF_OBJ2 := Field(144, 16)
  const DEVICE_OPAQUE := Field(192, 64)
  const MKEY := Field(256, 32)
  const SIZE := Field(288, 32)
  const ADDRESS := Field(320, 64)
  const INLINE_DATA := Field(384, 1664)

  const DUMP_BYTES := 256
  const INLINE_OFF := 48
  const INLINE_MAX: nat := 208

  lemma ResourceDumpMembers()
    ensures MORE_DUMP == Member(RESOURCE_DUMP, 0) && INLINE_DUMP == Member(RESOURCE_DUMP, 1)
    ensures SEQ_NUM == Member(RESOURCE_DUMP, 3) && SEGMENT_TYPE == Member(RESOURCE_DUMP, 4)
    ensures VHCA_ID == Member(RESOURCE_DUMP, 6) && INDEX1 == Member(RESOURCE_DUMP, 7)
    ensures INDEX2 == Member(RESOURCE_DUMP, 8) && NUM_OF_OBJ1 == Member(RESOURCE_DUMP, 9)
    ensures NUM_OF_OBJ2 == Member(RESOURCE_DUMP, 10) && DEVICE_OPAQUE == Member(RESOURCE_DUMP, 12)
    ensures MKEY == Member(RESOURCE_DUMP, 13) && SIZE == Member(RESOURCE_DUMP, 14)
    ensures ADDRESS == Member(RESOURCE_DUMP, 15) && INLINE_DATA == Member(RESOURCE_DUMP, 16)
    ensures INLINE_DATA.off == 8 * INLINE_OFF && INLINE_DATA.width == 8 * INLINE_MAX
    ensures SizeInBits(RESOURCE_DUMP) == 8 * DUMP_BYTES
  {
    var l := RESOURCE_DUMP;
    assert Offset(l, 4) == 16;
    assert Offset(l, 8) == 96;
    assert Offset(l, 11) == 160;
    assert Offset(l, 14) == 288;
  }

  /* ---- segments of a dump ---- */

  const SEGMENT_HEADER: Layout := [16, 16]
  const LENGTH_DW := Field(0, 16)
  const HEADER_TYPE := Field(16, 16)

  const MENU_SEGMENT: Layout := [32, 16, 16]
  const NUM_OF_RECORDS := Field(48, 16)
  const MENU_RECORD: Layout := [4, 1, 1, 1, 1, 1, 1, 1, 1, 1, 1, 1, 1, 16, 128, 128, 128]
  const MENU_HEAD_BYTES := 8
  const MENU_RECORD_BYTES := 52
  const INDEX2_NAME_OFF := 36   // the last of a record's three names

  // A dump begins with an info and a command segment.
  const INFO_SEGMENT: Layout := [32, 24, 8, 32, 32]
  const COMMAND_SEGMENT: Layout := [32, 16, 16, 32, 32, 16, 16]
  const FIRST_SEGMENT := 36

  // error and notice segments alike: header, syndrome, text
  const TEXT_SEGMENT: Layout := [32, 16, 16, 64, 256]
  const TEXT_BYTES := 48
  const REFERENCE_SEGMENT: Layout := [32, 16, 16, 32, 32, 16, 16]
  const REFERENCE_BYTES := 20
  const RESOURCE_SEGMENT: Layout := [32, 32, 32, 32]
  const RESOURCE_HEAD_BYTES := 16

  lemma SegmentMembers()
    ensures LENGTH_DW == Member(SEGMENT_HEADER, 0) && HEADER_TYPE == Member(SEGMENT_HEADER, 1)
    ensures SizeInBits(SEGMENT_HEADER) == 32
    ensures SizeInBits(INFO_SEGMENT) + SizeInBits(COMMAND_SEGMENT) == 8 * FIRST_SEGMENT
    ensures NUM_OF_RECORDS == Member(MENU_SEGMENT, 2)
    ensures SizeInBits(MENU_SEGMENT) == 8 * MENU_HEAD_BYTES
    ensures SizeInBits(MENU_RECORD) == 8 * MENU_RECORD_BYTES
    ensures Member(MENU_RECORD, 16) == Field(8 * INDEX2_NAME_OFF, 128)
    ensures SizeInBits(TEXT_SEGMENT) == 8 * TEXT_BYTES
    ensures SizeInBits(REFERENCE_SEGMENT) == 8 * REFERENCE_BYTES
    ensures SizeInBits(RESOURCE_SEGMENT) == 8 * RESOURCE_HEAD_BYTES
  {
    assert Offset(INFO_SEGMENT, 2) == 56;
    assert Offset(INFO_SEGMENT, 4) == 96;
    assert Offset(COMMAND_SEGMENT, 2) == 48;
    assert Offset(COMMAND_SEGMENT, 4) == 96;
    assert Offset(COMMAND_SEGMENT, 6) == 144;
    assert Offset(TEXT_SEGMENT, 2) == 48;
    assert Offset(TEXT_SEGMENT, 4) == 128;
    assert Offset(REFERENCE_SEGMENT, 2) == 48;
    assert Offset(REFERENCE_SEGMENT, 4) == 96;
    assert Offset(REFERENCE_SEGMENT, 6) == 144;
    assert Offset(RESOURCE_SEGMENT, 2) == 64;
    assert Offset(MENU_RECORD, 2) == 5;
    assert Offset(MENU_RECORD, 4) == 7;
    assert Offset(MENU_RECORD, 6) == 9;
    assert Offset(MENU_RECORD, 8) == 11;
    assert Offset(MENU_RECORD, 10) == 13;
    assert Offset(MENU_RECORD, 12) == 15;
    assert Offset(MENU_RECORD, 14) == 32;
    assert Offset(MENU_RECORD, 16) == 288;
    assert Offset(MENU_RECORD, 17) == 416;
  }

  /* ---- command frames ---- */

  // Every command starts with its opcode, every reply with its status.
  const OPCODE := Field(0, 16)
  const UID := Field(16, 16)
  const OP_MOD := Field(48, 16)
  const STATUS := Field(0, 8)

  const OP_CREATE_MKEY := 0x200
  const OP_DESTROY_MKEY := 0x202
  const OP_ALLOC_PD := 0x800
  const OP_DEALLOC_PD := 0x801
  const OP_ACCESS_REG := 0x805
  const OP_SET_DIAGNOSTIC_PARAMS := 0x820

  const ACCESS_REGISTER_IN: Layout := [16, 16, 16, 16, 16, 16, 32]
  const REGISTER_ID := Field(80, 16)
  const ARGUMENT := Field(96, 32)
  const ACCESS_REGISTER_OUT: Layout := [8, 24, 32, 64]
  const REG_HEAD_BYTES := 16

  // pd of alloc_pd_out and dealloc_pd_in, mkey_index of create_mkey_out and destroy_mkey_in
  const HANDLE_FRAME: Layout := [16, 16, 16, 16, 8, 24, 32]
  const HANDLE := Field(72, 24)
  const SHORT_FRAME_BYTES := 16

  // The last entry stands for everything from bsf_octword_size on.
  const MKC: Layout :=
    [1, 1, 1, 3, 7, 1, 1, 1, 1, 1, 1, 1, 1, 1, 2, 2, 2, 4, 24, 8, 32,
     1, 1, 1, 2, 1, 1, 1, 24, 64, 64, 256]
  const MKC_UMR_EN := Field(16, 1)
  const MKC_LW := Field(20, 1)
  const MKC_LR := Field(21, 1)
  const MKC_ACCESS_MODE := Field(22, 2)
  const MKC_QPN := Field(32, 24)
  const MKC_MKEY_7_0 := Field(56, 8)
  const MKC_PD := Field(104, 24)
  const MKC_START_ADDR := Field(128, 64)
  const MKC_LEN := Field(192, 64)

  const CREATE_MKEY_IN: Layout := [16, 16, 16, 16, 32, 1, 1, 30, 512, 128, 32, 32, 0x540]
  const MKEY_UMEM_VALID := Field(97, 1)
  const MKEY_UMEM_ID := Field(800, 32)
  const MKC_OFF := 16
  const CREATE_MKEY_BYTES := 272

  lemma CommandMembers()
    ensures OPCODE == Member(ACCESS_REGISTER_IN, 0) && OP_MOD == Member(ACCESS_REGISTER_IN, 3)
    ensures REGISTER_ID == Member(ACCESS_REGISTER_IN, 5) && ARGUMENT == Member(ACCESS_REGISTER_IN, 6)
    ensures SizeInBits(ACCESS_REGISTER_IN) == 8 * REG_HEAD_BYTES
    ensures STATUS == Member(ACCESS_REGISTER_OUT, 0)
    ensures SizeInBits(ACCESS_REGISTER_OUT) == 8 * REG_HEAD_BYTES
    ensures HANDLE == Member(HANDLE_FRAME, 5) && UID == Member(HANDLE_FRAME, 1)
    ensures SizeInBits(HANDLE_FRAME) == 8 * SHORT_FRAME_BYTES
  {
    assert Offset(ACCESS_REGISTER_IN, 2) == 32;
    assert Offset(ACCESS_REGISTER_IN, 4) == 64;
    assert Offset(ACCESS_REGISTER_IN, 6) == 96;
    assert Offset(ACCESS_REGISTER_IN, 7) == 128;
    assert Offset(HANDLE_FRAME, 2) == 32;
    assert Offset(HANDLE_FRAME, 4) == 64;
    assert Offset(HANDLE_FRAME, 6) == 96;
    assert Offset(HANDLE_FRAME, 7) == 128;
  }

  lemma MkeyContextMembers()
    ensures MKC_UMR_EN == Member(MKC, 8) && MKC_LW == Member(MKC, 12) && MKC_LR == Member(MKC, 13)
    ensures MKC_ACCESS_MODE == Member(MKC, 14) && MKC_QPN == Member(MKC, 18)
    ensures MKC_MKEY_7_0 == Member(MKC, 19) && MKC_PD == Member(MKC, 28)
    ensures MKC_START_ADDR == Member(MKC, 29) && MKC_LEN == Member(MKC, 30)
    ensures SizeInBits(MKC) == 512
  {
    assert Offset(MKC, 2) == 2;
    assert Offset(MKC, 4) == 6;
    assert Offset(MKC, 6) == 14;
    assert Offset(MKC, 8) == 16;
    assert Offset(MKC, 10) == 18;
    assert Offset(MKC, 12) == 20;
    assert Offset(MKC, 14) == 22;
    assert Offset(MKC, 16) == 26;
    assert Offset(MKC, 18) == 32;
    assert Offset(MKC, 20) == 64;
    assert Offset(MKC, 22) == 97;
    assert Offset(MKC, 24) == 99;
    assert Offset(MKC, 26) == 102;
    assert Offset(MKC, 28) == 104;
    assert Offset(MKC, 30) == 192;
    assert Offset(MKC, 32) == 512;
  }

  lemma CreateMkeyMembers()
    ensures MKEY_UMEM_VALID == Member(CREATE_MKEY_IN, 6)
    ensures Member(CREATE_MKEY_IN, 8) == Field(8 * MKC_OFF, 512)
    ensures MKEY_UMEM_ID == Member(CREATE_MKEY_IN, 11)
    ensures SizeInBits(CREATE_MKEY_IN) == 8 * CREATE_MKEY_BYTES
  {
    assert Offset(CREATE_MKEY_IN, 2) == 32;
    assert Offset(CREATE_MKEY_IN, 4) == 64;
    assert Offset(CREATE_MKEY_IN, 6) == 97;
    assert Offset(CREATE_MKEY_IN, 8) == 128;
    assert Offset(CREATE_MKEY_IN, 10) == 768;
    assert Offset(CREATE_MKEY_IN, 12) == 832;
    assert Offset(CREATE_MKEY_IN, 13) == 2176;
  }

  /* ---- core_dump_reg ---- */

  const CORE_DUMP: Layout := [1, 23, 8, 32, 16, 16, 8, 24, 32, 32, 64, 64, 192]
  const CORE_DUMP_TYPE := Field(24, 8)
  const CORE_MKEY := Field(128, 32)
  const CORE_SIZE := Field(160, 32)
  const CORE_ADDRESS := Field(192, 64)
  const CORE_DUMP_BYTES := 64

  lemma CoreDumpMembers()
    ensures CORE_DUMP_TYPE == Member(CORE_DUMP, 2) && CORE_MKEY == Member(CORE_DUMP, 8)
    ensures CORE_SIZE == Member(CORE_DUMP, 9) && CORE_ADDRESS == Member(CORE_DUMP, 10)
    ensures SizeInBits(CORE_DUMP) == 8 * CORE_DUMP_BYTES
  {
    assert Offset(CORE_DUMP, 2) == 24;
    assert Offset(CORE_DUMP, 4) == 64;
    assert Offset(CORE_DUMP, 6) == 96;
    assert Offset(CORE_DUMP, 8) == 128;
    assert Offset(CORE_DUMP, 10) == 192;
    assert Offset(CORE_DUMP, 12) == 320;
  }

  /* ---- diagnostic parameters ---- */

  const DIAG_CONTEXT: Layout := [16, 8, 8, 1, 1, 1, 1, 1, 1, 18, 8, 128]
  const DIAG_NUM_OF_COUNTERS := Field(0, 16)
  const DIAG_LOG_NUM_OF_SAMPLES := Field(24, 8)
  const DIAG_SINGLE := Field(32, 1)
  const DIAG_REPETITIVE := Field(33, 1)
  const DIAG_SYNC := Field(34, 1)
  const DIAG_CLEAR := Field(35, 1)
  const DIAG_ON_DEMAND := Field(36, 1)
  const DIAG_ENABLE := Field(37, 1)
  const DIAG_LOG_SAMPLE_PERIOD := Field(56, 8)
  const COUNTER_LAYOUT: Layout := [16, 16]
  const COUNTER_ID := Field(16, 16)
  const DIAG_CONTEXT_OFF := 8
  const DIAG_CONTEXT_BYTES := 24
  const COUNTER_BYTES := 4

  lemma DiagMembers()
    ensures DIAG_NUM_OF_COUNTERS == Member(DIAG_CONTEXT, 0)
    ensures DIAG_LOG_NUM_OF_SAMPLES == Member(DIAG_CONTEXT, 2)
    ensures DIAG_SINGLE == Member(DIAG_CONTEXT, 3) && DIAG_REPETITIVE == Member(DIAG_CONTEXT, 4)
    ensures DIAG_SYNC == Member(DIAG_CONTEXT, 5) && DIAG_CLEAR == Member(DIAG_CONTEXT, 6)
    ensures DIAG_ON_DEMAND == Member(DIAG_CONTEXT, 7) && DIAG_ENABLE == Member(DIAG_CONTEXT, 8)
    ensures DIAG_LOG_SAMPLE_PERIOD == Member(DIAG_CONTEXT, 10)
    ensures SizeInBits(DIAG_CONTEXT) == 8 * DIAG_CONTEXT_BYTES
    ensures COUNTER_ID == Member(COUNTER_LAYOUT, 1)
    ensures SizeInBits(COUNTER_LAYOUT) == 8 * COUNTER_BYTES
  {
    assert Offset(DIAG_CONTEXT, 2) == 24;
    assert Offset(DIAG_CONTEXT, 4) == 33;
    assert Offset(DIAG_CONTEXT, 6) == 35;
    assert Offset(DIAG_CONTEXT, 8) == 37;
    assert Offset(DIAG_CONTEXT, 10) == 56;
    assert Offset(DIAG_CONTEXT, 12) == 192;
  }
}
