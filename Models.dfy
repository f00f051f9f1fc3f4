/** The media record produced by the filename parser and the search query built
    from it (pkg/models/media.go). */
module Models {

  /** What the parser learned from a filename. Absent text fields are "", absent
      numbers are 0; Type is "episode" for TV records and the pattern's kind
      (in practice "movie") otherwise. */
  datatype MediaInfo = MediaInfo(
    Title: string,
    Year: string,
    Season: int,
    Episode: int,
    Quality: string,
    Source: string,
    Codec: string,
    Language: string,
    Type: string)
  {
    /** The record describes a TV episode; never at the same time as a movie. */
    predicate IsEpisode()
      ensures IsEpisode() ==> Type != "movie"
    {
      Type == "episode"
    }

    /** The record describes a movie; never at the same time as an episode. */
    predicate IsMovie()
      ensures IsMovie() ==> !IsEpisode() && Type != "episode"
    {
      Type == "movie"
    }

    /** Both numbers are set (positive). */
    predicate HasSeasonEpisode()
      ensures HasSeasonEpisode() ==> Season >= 1 && Episode >= 1
      ensures Season == 0 || Episode == 0 ==> !HasSeasonEpisode()
    {
      Season > 0 && Episode > 0
    }

    /** "Title (Year)" when a year is known, otherwise the bare title: the title is
        always a prefix, and the result is the title exactly when there is no year. */
    function GetDisplayTitle(): (r: string)
      ensures |r| >= |Title| && r[..|Title|] == Title
      ensures r == Title <==> Year == ""
      ensures Year != "" ==> r[|Title|..] == " (" + Year + ")"
    {
      if Year != "" then Title + " (" + Year + ")" else Title
    }
  }

  /** A query for the subtitle catalog; Season, Episode and Year are 0 when unset. */
  datatype SearchParams = SearchParams(
    Query: string,
    Language: string,
    Season: int,
    Episode: int,
    Year: int,
    Type: string,
    MovieHash: string)
}
