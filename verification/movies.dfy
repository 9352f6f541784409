/** The records held by the movie service: a film and its optional director. */
module Movies {

  /** A possibly-absent value: `None` stands for a nil pointer or a failed lookup. */
  datatype Option<+T> = None | Some(value: T)

  /** A director, owned by the one movie that points at it. */
  datatype Director = Director(firstname: string, lastname: string)

  /** A film. The service keeps the director behind a pointer, so it may be nil (`None`). */
  datatype Movie = Movie(id: string, isbn: string, title: string, director: Option<Director>)

  /** The record store: an ordered sequence of movies, shared by every handler. */
  type Store = seq<Movie>
}
