/**
 * The importer script: the identifier of the model it downloads and compiles,
 * and the store tag it registers the result under. Downloading, device
 * detection, compilation and the copy into the model store are not part of
 * this model.
 */
module ImportModel {
  import PyStr
  import StoreTag

  const MODEL_ID: string := "HF://mlc-ai/Llama-3-8B-Instruct-q4f16_1-MLC"

  const BENTO_MODEL_TAG: string := StoreTag.Tag(MODEL_ID)

  /** The tag the importer registers its output under. */
  lemma ShippedTag()
    ensures BENTO_MODEL_TAG == "llama-3-8b-instruct-q4f16_1-mlc"
  {
    var name := "Llama-3-8B-Instruct-q4f16_1-MLC";
    ShippedIdParts();
    ShippedNameHasNoSlash();
    StoreTag.TagIgnoresNamespace("HF://mlc-ai", name);
    LowerShippedName();
  }

  /** The identifier is a namespace, a `/` and a model name. */
  lemma ShippedIdParts()
    ensures MODEL_ID == "HF://mlc-ai" + "/" + "Llama-3-8B-Instruct-q4f16_1-MLC"
  {
  }

  /** The model name has no `/`. */
  lemma ShippedNameHasNoSlash()
    ensures '/' !in "Llama-3-8B-Instruct-q4f16_1-MLC"
  {
  }

  /** The model name, lower-cased. */
  lemma LowerShippedName()
    ensures PyStr.Lower("Llama-3-8B-Instruct-q4f16_1-MLC") == "llama-3-8b-instruct-q4f16_1-mlc"
  {
  }
}
