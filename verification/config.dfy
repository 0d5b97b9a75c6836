/** The application settings the modelled code reads. */
module Config {

  /** Number of passages the retriever fetches per question (`TOP_K`). */
  const TopK: nat := 4
}
