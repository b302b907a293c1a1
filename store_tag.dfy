/**
 * The model-store tag: the key under which the importer registers the
 * compiled model and under which the server looks it up. Both scripts derive
 * it from the model identifier with the same expression,
 * `model_id.lower().split("/")[-1]`.
 */
module StoreTag {
  import PyStr

  /** `model_id.lower().split("/")[-1]`: a tag never contains `/`. */
  function Tag(modelId: string): (tag: string)
    ensures '/' !in tag
  {
    PyStr.Last(PyStr.Split(PyStr.Lower(modelId), '/'))
  }

  /** The tag is the final path component of the lower-cased identifier. */
  lemma TagIsBasenameOfLower(modelId: string)
    ensures Tag(modelId) == PyStr.Basename(PyStr.Lower(modelId))
  {
    PyStr.LastPieceAfterLastSep(PyStr.Lower(modelId), '/');
  }

  /**
   * Lowering and taking the final component commute: the tag is also the
   * lower-cased final component of the identifier.
   */
  lemma TagIsLowerBasename(modelId: string)
    ensures Tag(modelId) == PyStr.Lower(PyStr.Basename(modelId))
  {
    var k := PyStr.RFind(modelId, '/') + 1;
    TagIsBasenameOfLower(modelId);
    PyStr.RFindLowerSlash(modelId);
    PyStr.LowerSlice(modelId, k, |modelId|);
  }

  /**
   * The tag is a suffix of the lower-cased identifier and contains neither a
   * `/` nor an upper-case letter.
   */
  lemma TagShape(modelId: string)
    ensures '/' !in Tag(modelId)
    ensures forall i :: 0 <= i < |Tag(modelId)| ==> !PyStr.IsUpper(Tag(modelId)[i])
    ensures PyStr.EndsWith(PyStr.Lower(modelId), Tag(modelId))
  {
    var low, tag := PyStr.Lower(modelId), Tag(modelId);
    TagIsBasenameOfLower(modelId);
    assert tag == low[|low| - |tag|..];
    forall i | 0 <= i < |tag|
      ensures !PyStr.IsUpper(tag[i])
    {
      assert tag[i] == low[|low| - |tag| + i];
    }
  }

  /**
   * The tag is the lower-cased identifier with everything up to and including
   * its last `/` removed, or the whole lower-cased identifier when it has no
   * `/`.
   */
  lemma TagAfterLastSlash(modelId: string)
    ensures '/' !in modelId ==> Tag(modelId) == PyStr.Lower(modelId)
    ensures '/' in modelId ==>
      Tag(modelId) == PyStr.Lower(modelId)[PyStr.RFind(modelId, '/') + 1..]
  {
    var low, r := PyStr.Lower(modelId), PyStr.RFind(modelId, '/');
    TagIsBasenameOfLower(modelId);
    PyStr.RFindLowerSlash(modelId);
    assert Tag(modelId) == low[r + 1..];
    if '/' !in modelId {
      assert low[r + 1..] == low;
    }
  }

  /** Lower-casing the identifier first does not change its tag. */
  lemma TagOfLowered(modelId: string)
    ensures Tag(PyStr.Lower(modelId)) == Tag(modelId)
  {
    PyStr.LowerIdempotent(modelId);
  }

  /**
   * Only the last component counts: identifiers that differ in what precedes
   * their last `/`, or in letter case, share one tag. Nothing in the scripts
   * detects such a collision.
   */
  lemma TagIgnoresNamespace(namespace: string, name: string)
    requires '/' !in name
    ensures Tag(namespace + "/" + name) == PyStr.Lower(name)
  {
    var id := namespace + "/" + name;
    TagIsLowerBasename(id);
    PyStr.RFindAppend(namespace + "/", name, '/');
    assert id == (namespace + "/") + name;
    assert PyStr.Basename(id) == name;
  }
}
