/** Where the compiler puts the fields of task_t (kernel/task/task.h, kernel/task/tss.h): the layout rules of C, and
    what they give for this structure. */
module TaskLayout {
  type Alignment = a: nat | a in {1, 2, 4, 4096} witness 1

  datatype Field = Field(size: nat, align: Alignment)

  /** The next multiple of the alignment. */
  function AlignUp(n: nat, align: Alignment): nat {
    if align == 1 then n
    else if align == 2 then (n + 1) / 2 * 2
    else if align == 4 then (n + 3) / 4 * 4
    else (n + 4095) / 4096 * 4096
  }

  /** Each field starts at the next multiple of its alignment behind the one before it. */
  function Offset(fields: seq<Field>, k: nat): nat
    requires k < |fields|
  {
    if k == 0 then 0 else AlignUp(Offset(fields, k - 1) + fields[k - 1].size, fields[k].align)
  }

  function End(fields: seq<Field>, k: nat): nat
    requires k < |fields|
  {
    Offset(fields, k) + fields[k].size
  }

  /** The size is a multiple of the largest alignment. */
  function SizeOf(fields: seq<Field>, align: Alignment): nat
    requires fields != []
  {
    AlignUp(End(fields, |fields| - 1), align)
  }

  lemma Aligned(n: nat, align: Alignment)
    ensures n <= AlignUp(n, align) < n + align
  {
  }

  /** Whatever the fields, no two overlap and all lie inside the structure. */
  lemma {:induction false} FieldsApart(fields: seq<Field>, align: Alignment, i: nat, j: nat)
    requires i < j < |fields|
    ensures End(fields, i) <= Offset(fields, j) && End(fields, j) <= SizeOf(fields, align)
    decreases j
  {
    Aligned(End(fields, j - 1), fields[j].align);
    if i < j - 1 {
      FieldsApart(fields, align, i, j - 1);
    }
    InStruct(fields, align, j);
  }

  lemma {:induction false} InStruct(fields: seq<Field>, align: Alignment, j: nat)
    requires j < |fields|
    ensures End(fields, j) <= SizeOf(fields, align)
    decreases |fields| - j
  {
    if j + 1 < |fields| {
      Aligned(End(fields, j), fields[j + 1].align);
      InStruct(fields, align, j + 1);
    } else {
      Aligned(End(fields, j), align);
    }
  }

  // ----- task_t ----------------------------------------------------------------------------------------

  const PAGEDIR := 0
  const TSS := 1
  const PAGE_TABLES := 2
  const IN_USE := 3
  const ID := 4
  const TSS_SELECTOR := 5
  const KERNEL_STACK := 6

  /** 1024 entries of 4 bytes and the TSS, both aligned to pages, 1024 pointers, bool, uint_t, uint16_t, 64 KB of stack
      and two words. */
  const TASK_T: seq<Field> := [
    Field(1024 * 4, 4096), Field(104 + 8192, 4096), Field(1024 * 4, 4), Field(1, 1), Field(4, 4), Field(2, 2),
    Field(65536, 1), Field(4, 4), Field(4, 4)]

  lemma TaskFields()
    ensures |TASK_T| == 9
    ensures Offset(TASK_T, PAGEDIR) == 0 && Offset(TASK_T, TSS) == 0x1000 && Offset(TASK_T, PAGE_TABLES) == 0x3068
    ensures Offset(TASK_T, IN_USE) == 0x4068 && Offset(TASK_T, ID) == 0x406c && Offset(TASK_T, TSS_SELECTOR) == 0x4070
    ensures Offset(TASK_T, KERNEL_STACK) == 0x4072 && End(TASK_T, KERNEL_STACK) == 0x14072
    ensures SizeOf(TASK_T, 4096) == 0x15000
  {
    hide Offset;
    FirstOffset(TASK_T);
    NextOffset(TASK_T, 1, 0);
    NextOffset(TASK_T, 2, 0x1000);
    NextOffset(TASK_T, 3, 0x3068);
    NextOffset(TASK_T, 4, 0x4068);
    NextOffset(TASK_T, 5, 0x406c);
    NextOffset(TASK_T, 6, 0x4070);
    NextOffset(TASK_T, 7, 0x4072);
    NextOffset(TASK_T, 8, 0x14074);
  }

  lemma FirstOffset(fields: seq<Field>)
    requires fields != []
    ensures Offset(fields, 0) == 0
  {
  }

  lemma NextOffset(fields: seq<Field>, k: nat, before: nat)
    requires 0 < k < |fields| && Offset(fields, k - 1) == before
    ensures Offset(fields, k) == AlignUp(before + fields[k - 1].size, fields[k].align)
  {
    hide AlignUp;
  }
}
