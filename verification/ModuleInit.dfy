/** src/main.c, `sched_mod_init`: the jump buffers and then the tables of the stack
    check, which sorts the addresses that the first step collects. */
module ModuleInit {
  import opened Errno
  import opened Words
  import opened StackCheck
  import opened HeadJump

  /** `jump_init_all` followed by `stack_check_init`. -EBUSY if somebody has hooked one of
      the functions; otherwise the buffers hold the jumps and the original heads, and the
      two sorted tables hold exactly the functions that will be patched, and their module
      versions. */
  method InitTables(table: JumpTable, fentry: Word, vmSize: array<Word>, modSize: array<Word>,
                    vmLooked: seq<Word>, modLooked: seq<Word>, schedule: nat)
    returns (r: int)
    requires table.Valid() && schedule < |table.targets|
    requires vmSize != modSize && vmSize.Length == modSize.Length == |vmLooked| == |modLooked| == |table.targets|
    requires {vmSize, modSize} !! {table.vmFuncAddr, table.modFuncAddr}
    modifies table.storeJump, table.storeOrig, table.vmFuncAddr, table.modFuncAddr, vmSize, modSize
    ensures r == 0 || r == -EBUSY
    ensures r == 0 <==>
      NoneHooked(table.targets, SavedHeads(table.base, table.text[..], table.targets), fentry)
    ensures AllOrdinary(table.targets, SavedHeads(table.base, table.text[..], table.targets), fentry) ==> r == 0
    ensures SomeForeign(table.targets, SavedHeads(table.base, table.text[..], table.targets), fentry) ==> r == -16
    ensures r == 0 ==>
      && table.storeJump[..] == JumpHeads(table.targets)
      && table.storeOrig[..] == SavedHeads(table.base, table.text[..], table.targets)
    ensures r == 0 ==>
      && Sorts(Registered(OrigAddrs(table.targets), vmLooked, schedule), table.vmFuncAddr[..], vmSize[..])
      && Sorts(Registered(ModAddrs(table.targets), modLooked, schedule), table.modFuncAddr[..], modSize[..])
  {
    var hooked := table.InitAll(fentry);
    if hooked != 0 {
      return -EBUSY;
    }
    StackCheckInit(table.vmFuncAddr, vmSize, table.modFuncAddr, modSize, vmLooked, modLooked, schedule);
    return 0;
  }
}
