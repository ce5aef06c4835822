/** The records the dataset builder handles: the listing entries it starts
    from, the detail fields the catalog API returns for one anime, and the
    fourteen-column row it keeps for every anime it fetched. */
module Records {
  import Genres

  /** One entry of the seasonal listing: the catalog id and the listed title. */
  datatype Candidate = Candidate(id: int, title: string)

  /** A decoded JSON scalar as it appears in a detail field. A number keeps
      the text Python prints for it. */
  datatype Scalar = Null | Bool(b: bool) | Number(text: string) | Text(s: string)

  /** Python's `str` of a decoded scalar. */
  function PyStr(v: Scalar): string {
    match v
    case Null => "None"
    case Bool(b) => if b then "True" else "False"
    case Number(t) => t
    case Text(s) => s
  }

  /** The detail fields the loop reads from a successful response, other
      than the genre list (which it only reads the names of). */
  datatype Detail = Detail(
    title: Scalar,
    synopsis: Scalar,
    episodes: Scalar,
    premiered: Scalar,
    rating: Scalar,
    score: Scalar,
    scoredBy: Scalar,
    rank: Scalar,
    popularity: Scalar,
    members: Scalar,
    favorites: Scalar,
    imageUrl: Scalar)

  /** One fetched anime, in the column order Anime_ID, Title, Synopsis,
      Episodes, Premiered, Genre, Rating, Score, Scored_By, Rank, Popularity,
      Members, Favorites, Image_URL. */
  datatype AnimeRow = AnimeRow(
    id: int,
    title: Scalar,
    synopsis: string,
    episodes: Scalar,
    premiered: Scalar,
    genre: string,
    rating: Scalar,
    score: Scalar,
    scoredBy: Scalar,
    rank: Scalar,
    popularity: Scalar,
    members: Scalar,
    favorites: Scalar,
    imageUrl: Scalar)

  /** The row built for a successful fetch of listing entry `c`
      (Python builds it as a 14-tuple). */
  function MakeRow(c: Candidate, d: Detail, genreNames: seq<string>): AnimeRow {
    AnimeRow(c.id, d.title, PyStr(d.synopsis), d.episodes, d.premiered, Genres.Join(genreNames),
             d.rating, d.score, d.scoredBy, d.rank, d.popularity, d.members, d.favorites, d.imageUrl)
  }

  /** What a success row holds. Its key is the listing's id, whatever the
      response says; its title is the one the response gives, not the
      listed one; the synopsis is passed through `str`; the other detail
      fields are copied unchanged; and the genre column is the genre names
      joined with ", ", from which the names can be read back in order
      whenever none of them contains the separator. */
  lemma RowFromListing(c: Candidate, d: Detail, genreNames: seq<string>)
    ensures MakeRow(c, d, genreNames).id == c.id
    ensures MakeRow(c, d, genreNames).title == d.title
    ensures MakeRow(c, d, genreNames).synopsis == PyStr(d.synopsis)
    ensures var row := MakeRow(c, d, genreNames);
            && row.episodes == d.episodes && row.premiered == d.premiered
            && row.rating == d.rating && row.score == d.score && row.scoredBy == d.scoredBy
            && row.rank == d.rank && row.popularity == d.popularity
            && row.members == d.members && row.favorites == d.favorites
            && row.imageUrl == d.imageUrl
    ensures Genres.Separable(genreNames) ==>
              Genres.Split(MakeRow(c, d, genreNames).genre) == if genreNames == [] then [""] else genreNames
  {
    if Genres.Separable(genreNames) {
      Genres.SplitJoin(genreNames);
    }
  }
}
