// What the rootfs check is for: the guest kernel, asked to execute a path in
// the shared root directory, finds a program there.
module GuestKernel {
  import opened RootfsCache

  // Bit `i` of a mode, counted from the least significant.
  predicate Bit(mode: bv16, i: bv4) {
    (mode >> i) & 1 == 1
  }

  // Execution for user 0: an absolute path that names a regular file which
  // somebody - its owner, its group or the others - may execute.
  predicate Executes(t: Tree, path: string) {
    && path != "" && path[0] == '/' && path[1..] in t
    && match t[path[1..]]
       case Folder => false
       case File(_, mode) => Bit(mode, 6) || Bit(mode, 3) || Bit(mode, 0)
  }

  // The script libkrun is told to execute.
  const VM_BUILD_SCRIPT := "/usr/local/bin/vm-build"

  // A shared root directory in which it runs.
  predicate Runs(e: Entry) {
    e.Dir? && Executes(e.tree, VM_BUILD_SCRIPT)
  }

  lemma ExecuteBits(mode: bv16)
    ensures mode & 0x49 != 0 <==> Bit(mode, 6) || Bit(mode, 3) || Bit(mode, 0)
  {
  }

  // Main result: the check on the host side passes exactly when the guest
  // kernel can execute the script.
  lemma BootsExactly(t: Tree)
    ensures TreeBoots(t) <==> Executes(t, "/usr/local/bin/vm-build")
  {
    assert "/usr/local/bin/vm-build"[1..] == HELPER;
    if HELPER in t && t[HELPER].File? {
      ExecuteBits(t[HELPER].mode);
    }
  }

  // A hit is a marked directory whose script runs.
  lemma HitExactly(root: Root, b: Binary)
    ensures Hit(root, b) <==> MarkerSeen(root, b) && Runs(root[b.version])
  {
    if IsDir(root, b.version) {
      BootsExactly(root[b.version].tree);
    }
  }
}
