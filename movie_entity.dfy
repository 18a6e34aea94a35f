/** The cached movie record, one row of the MovieEntity table. */
module MovieEntities {

  /**
   * A row of the movie cache. `imdbID` is the primary key (it is not
   * generated). The Kotlin property `type` is named `kind` here because
   * `type` is a Dafny keyword. `year` is text, not a number.
   */
  datatype MovieEntity = MovieEntity(
    imdbID: string,
    title: string,
    year: string,
    poster: string,
    kind: string
  )
}
