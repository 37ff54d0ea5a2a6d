/** Datatypes, constants and error codes shared by the kernel modules. */
module Basics {

  /** Error codes returned by the kernel (negated in C). */
  datatype Error = OK | BadEnv | Inval | NoMem | NoFreeEnv | IpcNotRecv

  /** The state of a slot of envs[]. */
  datatype Status = Free | Dying | Runnable | Running | NotRunnable

  const PGSIZE := 4096          // bytes in a page
  const NPTENTRIES := 1024      // entries in a page table or page directory
  const UTOP := 0xeec0_0000
  const USER_PDES := 955        // PDX(UTOP)
  const USER_PAGES := 955 * 1024  // PGNUM(UTOP)
  const UVPT_PDX := 957         // PDX(UVPT)

  /** The low twelve bits of a page-table entry, as the set of bits that are 1. */
  datatype Flag = P | W | U | PWT | PCD | Acc | D | PS | G | Avail9 | Avail10 | COW

  type Perm = set<Flag>

  /** The bits a user program may pass to a page system call. */
  const PTE_SYSCALL: Perm := {Avail9, Avail10, COW, P, W, U}

  /** A page-table or page-directory entry: a frame number and its flag bits. */
  datatype Entry = Entry(frame: nat, flags: Perm)

  const EMPTY := Entry(0, {})

  predicate Present(e: Entry) { P in e.flags }
}
