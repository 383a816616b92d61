/** The class `TFILEPtr` itself, every method of which is one operation of the machine in `FileHandles`. */
module FilePtr {
  import opened CStrings
  import opened FileHandles

  /** The C library, with its open files. */
  class Library {
    var files: Files

    constructor ()
      ensures files == START.files
    {
      files := START.files;
    }
  }

  /** The object shown as `o` in this state is in the given condition. */
  predicate Shows(st: State, files: Files, o: nat, h: Handle) {
    st.files == files && o in st.objs && st.objs[o] == h
  }

  /**
   In every state with these files in which `o` is `before`, the operation leads to a state with the
   files `files'` in which `o` is `after` and all other objects are as they were.
   */
  ghost predicate Performs(files: Files, o: nat, before: Handle, op: Op, files': Files, after: Handle) {
    forall st: State :: Shows(st, files, o, before) && Legal(st, op) ==>
      Apply(st, op).files == files' && Apply(st, op).objs == st.objs[o := after]
  }

  class TFILEPtr {
    var file: Ptr
    var shouldClose: bool
    var isPipe: bool
    var name: string

    function View(): Handle
      reads this
    {
      Handle(file, shouldClose, isPipe)
    }

    constructor ()
      ensures View() == NO_FILE && name == ""
    {
      file, shouldClose, isPipe, name := Null, false, false, "";
    }

    /** The copy constructor: the copy only borrows. */
    constructor Copy(src: TFILEPtr)
      ensures View() == Borrower(src.file) && name == ""
    {
      file, shouldClose, isPipe, name := src.file, false, false, "";
    }

    /** The constructor from a raw file: the object takes ownership. */
    constructor Adopt(f: Ptr)
      ensures View() == Owning(f, false) && name == ""
    {
      file, shouldClose, isPipe, name := f, true, false, "";
    }

    /**
     `open` and `popen`, given what the library's call returned: a file that was not open, or none.
     The machine's `OpenFile` on success; nothing but the exception otherwise.
     */
    method Open(lib: Library, path: string, got: Ptr, pipe: bool) returns (threw: bool)
      requires path != "" && file == Null
      requires got.At? ==> got.index !in lib.files.open
      modifies this, lib
      ensures threw <==> got == Null
      ensures threw ==> View() == old(View()) && lib.files == old(lib.files) && name == old(name)
      ensures !threw ==> name == path && forall o: nat ::
        Performs(old(lib.files), o, old(View()), OpenFile(o, got.index, pipe), lib.files, View())
    {
      file := got;
      if file == Null {
        return true;
      }
      lib.files := lib.files.Open(got.index, pipe);
      shouldClose, isPipe := true, pipe;
      name := path;
      return false;
    }

    /**
     `close`: the machine's `CloseFile`. `fails` is the library's answer to closing, `unwinding` whether
     an exception is already in flight. When it throws, the name stays.
     */
    method Close(lib: Library, fails: bool, unwinding: bool) returns (threw: bool)
      modifies this, lib
      ensures threw <==> old(View()).Owner() && fails && !unwinding
      ensures View() == NO_FILE && lib.files == old(lib.files).Released(old(View()))
      ensures forall o: nat :: Performs(old(lib.files), o, old(View()), CloseFile(o), lib.files, View())
      ensures name == if threw then old(name) else ""
    {
      if file != Null && shouldClose {
        lib.files := lib.files.Close(file.index, isPipe);
        if fails {
          file, shouldClose, isPipe := Null, false, false;
          if !unwinding {
            return true;
          }
        }
      }
      file, shouldClose, isPipe := Null, false, false;
      name := "";
      return false;
    }

    /** `operator=(const TFILEPtr&)`: the machine's `AssignCopy`, also when the object is assigned to itself. */
    method AssignCopy(lib: Library, src: TFILEPtr, fails: bool, unwinding: bool) returns (threw: bool)
      modifies this, lib
      ensures threw <==> old(file) != old(src.file) && old(View()).Owner() && fails && !unwinding
      ensures old(file) == old(src.file) ==> View() == old(View()) && lib.files == old(lib.files)
      ensures !threw ==> file == old(src.file)
      ensures name == if old(file) == old(src.file) || threw then old(name) else ""
      ensures old(file) != old(src.file) ==> !View().Owner()
      ensures forall o: nat, p: nat, st: State ::
        Shows(st, old(lib.files), o, old(View())) && Shows(st, old(lib.files), p, old(src.View()))
        && Legal(st, FileHandles.AssignCopy(o, p, threw)) ==>
          && Apply(st, FileHandles.AssignCopy(o, p, threw)).files == lib.files
          && Apply(st, FileHandles.AssignCopy(o, p, threw)).objs == st.objs[o := View()]
    {
      threw := false;
      if src.file != file {
        threw := Close(lib, fails, unwinding);
        if threw {
          return;
        }
        file, shouldClose, isPipe := src.file, false, false;
      }
    }

    /** `operator=(FILE*)`: the machine's `AssignRaw`. A file already pointed to is not taken over. */
    method AssignRaw(lib: Library, f: Ptr, fails: bool, unwinding: bool) returns (threw: bool)
      modifies this, lib
      ensures threw <==> f != old(file) && old(View()).Owner() && fails && !unwinding
      ensures f == old(file) ==> View() == old(View())
      ensures !threw ==> file == f
      ensures name == if f == old(file) || threw then old(name) else ""
      ensures f != old(file) && !threw ==> View() == Owning(f, false)
      ensures forall o: nat ::
        Performs(old(lib.files), o, old(View()), FileHandles.AssignRaw(o, f, threw), lib.files, View())
    {
      threw := false;
      if f != file {
        threw := Close(lib, fails, unwinding);
        if threw {
          return;
        }
        file, shouldClose, isPipe := f, true, false;
      }
    }
  }
}
