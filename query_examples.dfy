/** Concrete encodings of particular queries. */
module TwitterExamples {
  import opened Url
  import opened Twitter

  /** The `q=foo` request of the client's tests: plain text is sent as it is. */
  lemma ExampleText()
    ensures Encoded(Query("foo", [], [])) == "foo"
  {
  }

  /** A date bound is copied after its prefix. */
  lemma ExampleSince()
    ensures Encoded(Query([], "2020-01-01", [])) == "since:2020-01-01"
  {
  }

  /** Reserved bytes of the text are percent-encoded. */
  lemma ExampleEscapedText()
    ensures Encoded(Query("#go", [], [])) == "%23go"
  {
  }
}
