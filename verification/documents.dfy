/** A loaded or retrieved passage, as the chain and the insights see it. */
module Documents {

  /** `langchain_core.documents.Document`: the passage text and its metadata
      (source file and the like). */
  datatype Document = Document(pageContent: string, metadata: map<string, string>)

  /** The texts of `docs`, in order. */
  function Contents(docs: seq<Document>): seq<string>
  {
    seq(|docs|, i requires 0 <= i < |docs| => docs[i].pageContent)
  }
}
