/** The memory map of kernel/include/platform.h and the section bounds of kernel/linker.ld. */
module Platform {
  import opened Sv39

  const RAM_END := PHYSICAL_RAM_START + TOTAL_PAGES * PAGE_SIZE

  const UART0_BASE := 0x1000_0000
  const UART0_SIZE := 0x100
  const PLIC_BASE := 0x0C00_0000
  const PLIC_SIZE := 0x20_2000

  /** Page-aligned linker symbols, in address order; the allocator's bitmap is the page at `end`. */
  datatype Layout = Layout(textStart: nat, textEnd: nat, rodataStart: nat, rodataEnd: nat, end: nat) {
    predicate Valid() {
      && PHYSICAL_RAM_START <= textStart <= textEnd <= rodataStart <= rodataEnd <= end
      && end + PAGE_SIZE <= RAM_END
      && textStart % PAGE_SIZE == 0 && textEnd % PAGE_SIZE == 0
      && rodataStart % PAGE_SIZE == 0 && rodataEnd % PAGE_SIZE == 0 && end % PAGE_SIZE == 0
    }
  }

  predicate DevicePage(page: nat) {
    || UART0_BASE / PAGE_SIZE <= page < (UART0_BASE + UART0_SIZE + PAGE_SIZE - 1) / PAGE_SIZE
    || PLIC_BASE / PAGE_SIZE <= page < (PLIC_BASE + PLIC_SIZE) / PAGE_SIZE
  }

  /** Permissions of a page in the kernel's own mapping; 0 for a page the kernel does not map. */
  function KernelFlags(lay: Layout, page: nat): (flags: nat)
    ensures flags < 16
  {
    if lay.textStart / PAGE_SIZE <= page < lay.textEnd / PAGE_SIZE then PTE_R + PTE_X
    else if lay.rodataStart / PAGE_SIZE <= page < lay.rodataEnd / PAGE_SIZE then PTE_R
    else if lay.rodataEnd / PAGE_SIZE <= page < RAM_END / PAGE_SIZE then PTE_R + PTE_W
    else if DevicePage(page) then PTE_R + PTE_W
    else 0
  }

  function KernelPte(lay: Layout, page: nat): (w: Word)
    requires page < PAGES
  {
    if KernelFlags(lay, page) == 0 then 0 else MakePte(page * PAGE_SIZE, KernelFlags(lay, page))
  }
}
