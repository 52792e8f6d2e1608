/** The fields of a PRAW comment that the modelled routines read. */
module Comments {

  datatype Comment = Comment(id: string, author: string, body: string, score: int)
}
