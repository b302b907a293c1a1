/**
 * The serving script: the store tag it looks the model up under, the search
 * for the one compiled model library in the model's directory, and the
 * holder that enters and exits the runtime's serving context.
 */
module Service {
  import PyStr
  import PosixPath
  import StoreTag
  import ImportModel

  const MODEL_ID: string := "HF://mlc-ai/Llama-3-8B-Instruct-q4f16_1-MLC"

  const BENTO_MODEL_TAG: string := StoreTag.Tag(MODEL_ID)

  /**
   * The server looks the model up under exactly the tag the importer
   * registered it under.
   */
  lemma TagMatchesImporter()
    ensures BENTO_MODEL_TAG == ImportModel.BENTO_MODEL_TAG
    ensures BENTO_MODEL_TAG == "llama-3-8b-instruct-q4f16_1-mlc"
  {
    ImportModel.ShippedTag();
  }

  // ---------------------------------------------------------------------
  // Finding the compiled model library
  // ---------------------------------------------------------------------

  /** A directory entry counts as a compiled library when it ends in `.so`. */
  predicate IsModelLib(name: string)
  {
    PyStr.EndsWith(name, ".so")
  }

  /** The libraries are exactly the names made of some stem followed by `.so`. */
  lemma ModelLibIsStemSo(name: string)
    ensures IsModelLib(name) <==> exists stem :: name == stem + ".so"
  {
    if IsModelLib(name) {
      assert name == name[..|name| - 3] + ".so";
    }
  }

  /**
   * The suffix test is exact and case-sensitive: a versioned name such as
   * `lib.so.1` or an upper-case `lib.SO` is not a library.
   */
  lemma ModelLibSuffixExact(stem: string, c: char)
    ensures IsModelLib(stem + ".so")
    ensures !IsModelLib(stem + ".so" + [c])
    ensures !IsModelLib(stem + ".SO")
  {
    var versioned := stem + ".so" + [c];
    assert versioned[|versioned| - 3] == 's';
  }

  /** `[f for f in listing if f.endswith(".so")]` */
  function ModelLibs(listing: seq<string>): (libs: seq<string>)
    ensures |libs| <= |listing|
    ensures forall k :: 0 <= k < |libs| ==> IsModelLib(libs[k]) && libs[k] in listing
  {
    if listing == [] then []
    else (if IsModelLib(listing[0]) then [listing[0]] else []) + ModelLibs(listing[1..])
  }

  /** The filter keeps each library name as often as it is listed, and nothing else. */
  lemma {:induction false} ModelLibsMultiset(listing: seq<string>)
    ensures forall f :: multiset(ModelLibs(listing))[f] == if IsModelLib(f) then multiset(listing)[f] else 0
  {
    if listing != [] {
      ModelLibsMultiset(listing[1..]);
      assert listing == [listing[0]] + listing[1..];
    }
  }

  /** The outcome of looking for the compiled library. */
  datatype LibLookup =
    | Found(path: string)  // exactly one library: its full path
    | Ambiguous            // `ValueError`: more than one library
    | NotFound             // `FileNotFoundError`: no library

  /**
   * `MLC._get_model_lib(directory)` on the directory's listing: the joined
   * path of the only library when there is exactly one, `Ambiguous` when
   * there are two or more, `NotFound` when there is none.
   */
  function GetModelLib(directory: string, listing: seq<string>): (r: LibLookup)
    ensures r.NotFound? <==> forall i :: 0 <= i < |listing| ==> !IsModelLib(listing[i])
    ensures r.Ambiguous? <==>
      exists i, j :: 0 <= i < j < |listing| && IsModelLib(listing[i]) && IsModelLib(listing[j])
    ensures r.Found? ==>
      exists i :: (0 <= i < |listing| && IsModelLib(listing[i])
        && r.path == PosixPath.Join(directory, listing[i])
        && forall j :: 0 <= j < |listing| && j != i ==> !IsModelLib(listing[j]))
  {
    var libs := ModelLibs(listing);
    NoLibs(listing);
    SeveralLibs(listing);
    if |libs| == 1 then
      OneLib(listing);
      Found(PosixPath.Join(directory, libs[0]))
    else if |libs| > 1 then Ambiguous
    else NotFound
  }

  /** The filter comes out empty exactly when no entry is a library. */
  lemma {:induction false} NoLibs(listing: seq<string>)
    ensures |ModelLibs(listing)| == 0 <==> forall i :: 0 <= i < |listing| ==> !IsModelLib(listing[i])
  {
    if listing != [] {
      NoLibs(listing[1..]);
      if IsModelLib(listing[0]) {
        assert |ModelLibs(listing)| > 0;
      } else {
        assert forall i :: 1 <= i < |listing| ==> listing[i] == listing[1..][i - 1];
      }
    }
  }

  /** The filter keeps two or more names exactly when two entries are libraries. */
  lemma {:induction false} SeveralLibs(listing: seq<string>)
    ensures |ModelLibs(listing)| >= 2 <==>
      exists i, j :: 0 <= i < j < |listing| && IsModelLib(listing[i]) && IsModelLib(listing[j])
  {
    if listing != [] {
      var tail := listing[1..];
      SeveralLibs(tail);
      NoLibs(tail);
      if |ModelLibs(listing)| >= 2 {
        if IsModelLib(listing[0]) {
          var j :| 0 <= j < |tail| && IsModelLib(tail[j]);
          assert IsModelLib(listing[0]) && IsModelLib(listing[j + 1]);
        } else {
          var i, j :| 0 <= i < j < |tail| && IsModelLib(tail[i]) && IsModelLib(tail[j]);
          assert IsModelLib(listing[i + 1]) && IsModelLib(listing[j + 1]);
        }
      }
      if exists i, j :: 0 <= i < j < |listing| && IsModelLib(listing[i]) && IsModelLib(listing[j]) {
        var i, j :| 0 <= i < j < |listing| && IsModelLib(listing[i]) && IsModelLib(listing[j]);
        assert IsModelLib(tail[j - 1]);
        if i > 0 {
          assert IsModelLib(tail[i - 1]);
        }
      }
    }
  }

  /** When the filter keeps one name, it is the only library entry. */
  lemma {:induction false} OneLib(listing: seq<string>)
    requires |ModelLibs(listing)| == 1
    ensures exists i :: (0 <= i < |listing| && IsModelLib(listing[i])
      && ModelLibs(listing)[0] == listing[i]
      && forall j :: 0 <= j < |listing| && j != i ==> !IsModelLib(listing[j]))
  {
    var tail := listing[1..];
    if IsModelLib(listing[0]) {
      NoLibs(tail);
      assert forall j :: 1 <= j < |listing| ==> listing[j] == tail[j - 1];
    } else {
      OneLib(tail);
      var i :| 0 <= i < |tail| && IsModelLib(tail[i])
        && ModelLibs(tail)[0] == tail[i]
        && forall j :: 0 <= j < |tail| && j != i ==> !IsModelLib(tail[j]);
      assert listing[i + 1] == tail[i];
      assert forall j :: 1 <= j < |listing| ==> listing[j] == tail[j - 1];
    }
  }

  /** A listing with exactly one library entry yields that entry's full path. */
  lemma UniqueLibFound(directory: string, listing: seq<string>, k: nat)
    requires k < |listing| && IsModelLib(listing[k])
    requires forall j :: 0 <= j < |listing| && j != k ==> !IsModelLib(listing[j])
    ensures GetModelLib(directory, listing) == Found(PosixPath.Join(directory, listing[k]))
  {
  }

  /** The filter distributes over concatenated listings. */
  lemma {:induction false} ModelLibsAppend(a: seq<string>, b: seq<string>)
    ensures ModelLibs(a + b) == ModelLibs(a) + ModelLibs(b)
  {
    if a != [] {
      ModelLibsAppend(a[1..], b);
      assert (a + b)[0] == a[0] && (a + b)[1..] == a[1..] + b;
      var head := if IsModelLib(a[0]) then [a[0]] else [];
      assert ModelLibs(a + b) == head + (ModelLibs(a[1..]) + ModelLibs(b));
    } else {
      assert a + b == b;
    }
  }

  /**
   * Entries that are not libraries change nothing, wherever they appear in
   * the listing.
   */
  lemma OtherEntriesIgnored(directory: string, before: seq<string>, others: seq<string>, after: seq<string>)
    requires forall i :: 0 <= i < |others| ==> !IsModelLib(others[i])
    ensures GetModelLib(directory, before + others + after) == GetModelLib(directory, before + after)
  {
    NoLibs(others);
    ModelLibsAppend(before, others);
    ModelLibsAppend(before + others, after);
    ModelLibsAppend(before, after);
  }

  /**
   * `os.listdir` promises no order: every ordering of the same entries gives
   * the same outcome and, when one library is found, the same path.
   */
  lemma OrderIrrelevant(directory: string, a: seq<string>, b: seq<string>)
    requires multiset(a) == multiset(b)
    ensures GetModelLib(directory, a) == GetModelLib(directory, b)
  {
    var la, lb := ModelLibs(a), ModelLibs(b);
    SameLibsAnyOrder(a, b);
    assert |la| == |multiset(la)| == |multiset(lb)| == |lb|;
    if |la| == 1 {
      assert multiset(la) == multiset{la[0]} by { assert la == [la[0]]; }
      assert multiset(lb) == multiset{lb[0]} by { assert lb == [lb[0]]; }
    }
  }

  /** Reordering the listing reorders the filtered names and nothing more. */
  lemma SameLibsAnyOrder(a: seq<string>, b: seq<string>)
    requires multiset(a) == multiset(b)
    ensures multiset(ModelLibs(a)) == multiset(ModelLibs(b))
  {
    ModelLibsMultiset(a);
    ModelLibsMultiset(b);
  }

  /**
   * For names as `os.listdir` returns them (non-empty, no `/`), a found path
   * is the directory joined with a listed library name, and its last
   * component is that name.
   */
  lemma FoundPathNamesListedLib(directory: string, listing: seq<string>)
    requires forall i :: 0 <= i < |listing| ==> listing[i] != [] && '/' !in listing[i]
    requires GetModelLib(directory, listing).Found?
    ensures var name := PyStr.Basename(GetModelLib(directory, listing).path);
      name in listing && IsModelLib(name)
  {
    var r := GetModelLib(directory, listing);
    var i :| 0 <= i < |listing| && IsModelLib(listing[i]) && r.path == PosixPath.Join(directory, listing[i]);
    PosixPath.JoinBasename(directory, listing[i]);
  }

  // ---------------------------------------------------------------------
  // Holding the serving context
  // ---------------------------------------------------------------------

  /**
   * The runtime's serving context, seen only through its context-manager
   * protocol: ghost counters record how often `__enter__` and `__exit__`
   * were called on it. What entering and exiting do inside the runtime is
   * not part of this model.
   */
  class ServerContext {
    ghost var enters: nat
    ghost var exits: nat

    constructor ()
      ensures enters == 0 && exits == 0
    {
      enters, exits := 0, 0;
    }

    /** `__enter__()` */
    method Enter()
      modifies this
      ensures enters == old(enters) + 1 && exits == old(exits)
    {
      enters := enters + 1;
    }

    /** `__exit__(None, None, None)` */
    method Exit()
      modifies this
      ensures exits == old(exits) + 1 && enters == old(enters)
    {
      exits := exits + 1;
    }
  }

  /**
   * `ServerContextManager`: holds at most one entered context. `started`
   * records every context it has created, oldest first.
   */
  class ServerContextManager {
    var context: ServerContext?
    ghost var started: seq<ServerContext>

    /**
     * Every context it created was entered exactly once and exited at most
     * once; the held one is the latest and has not been exited.
     */
    ghost predicate Valid()
      reads this, started
    {
      && (forall c :: c in started ==> c.enters == 1 && c.exits <= 1)
      && (context != null ==> |started| > 0 && context == started[|started| - 1] && context.exits == 0)
    }

    /** `__init__`: nothing held. */
    constructor ()
      ensures Valid() && context == null && started == []
    {
      context := null;
      started := [];
    }

    /**
     * `start()`: creates a context, enters it once, holds it and returns it.
     * A context already held is dropped without being exited.
     */
    method Start() returns (ctx: ServerContext)
      requires Valid()
      modifies this
      ensures Valid()
      ensures fresh(ctx) && context == ctx && ctx.enters == 1 && ctx.exits == 0
      ensures started == old(started) + [ctx]
      ensures forall c :: c in old(started) ==> c.enters == old(c.enters) && c.exits == old(c.exits)
    {
      ctx := new ServerContext();
      context := ctx;
      ctx.Enter();
      started := started + [ctx];
    }

    /**
     * `end()`: exits the held context once and lets it go; with nothing held
     * it does nothing.
     */
    method End()
      requires Valid()
      modifies this, context
      ensures Valid()
      ensures context == null && started == old(started)
      ensures old(context) != null ==> old(context).exits == old(context.exits) + 1 == 1
      ensures forall c :: c in started && c != old(context) ==> c.enters == old(c.enters) && c.exits == old(c.exits)
    {
      if context != null {
        context.Exit();
        context := null;
      }
    }
  }
}
