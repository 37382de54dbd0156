// The kernel's start: vm_init records the root table, pmm_init sets up the frames
// and the identity map, and the virtual layer is in the state its theorems start from.
module Startup {
  import opened Words
  import opened FrameSpec
  import opened BootInfoSpec
  import opened FrameAllocation
  import opened Paging
  import opened VmSpec
  import opened VmSpaces
  import opened VmGuarantees
  import opened VmHeapRegion
  import opened PmmBoot
  import opened VirtualMemory

  /**
   * From the tables the boot code leaves, inside the kernel image. It succeeds exactly
   * if the boot information can be mapped and parsed, and then every theorem about
   * `BootState` is about the object returned.
   */
  method Start(mbInfo: nat, block: seq<Byte>, bssEnd: nat, mem: array<Frame>, cr3: nat, ghost b: BootTables,
               pmm: FrameAllocator)
    returns (ok: bool, vm: VirtualMemory)
    requires Readable(block) && bssEnd + 4095 < WORD_LIMIT && pmm.Sized()
    requires BootShape(mem[..], b) && cr3 == b.root && InImage(b, bssEnd)
    modifies mem, pmm, pmm.bitmap
    ensures fresh(vm) && vm.mem == mem && vm.pmm == pmm
    ensures ok <==> Bootable(old(mem[..]), cr3, mbInfo, block)
    ensures ok ==> vm.Valid() && Booted(mem[..], pmm.Bits(), b) && vm.Abstract() == BootState(mem[..], pmm.Bits(), b)
  {
    hide Bootable, BootShape, Booted, Linked, Coherent, HeapInv, LowMap, Isolated, Shows, Accounted, Test, CountFree;
    BootChain(mem[..], b);
    vm := new VirtualMemory(mem, pmm, cr3);
    ok := PmmInit(mbInfo, block, bssEnd, mem, cr3, b, pmm);
    if ok {
      vm.own := BootState(mem[..], pmm.Bits(), b).ph.own;
      BootEstablishes(mem[..], pmm.Bits(), b);
    }
  }
}
