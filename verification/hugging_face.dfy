/** Names shared by the backends that fetch their models from the HuggingFace hub. */
module HuggingFace {

  /** The host name a model URL must mention to be read as a hub repository. */
  const Hub: string := "huggingface.co"
}
