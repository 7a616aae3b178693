/** Small facts about sequences shared by the other modules. */
module Lists {

  /** A non-empty sequence holds its head. */
  lemma HeadIsElement(r: seq<string>)
    requires r != []
    ensures r[0] in r
  {
  }
}
