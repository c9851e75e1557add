/** The track records the game is played with. */
module Songs {
  import opened Optional

  /** A track as the top-tracks provider returns it. The source compares songs
      by object identity, so two tracks with equal fields are still different
      songs; `id` stands for that identity. */
  datatype Song = Song(id: nat, albumName: Option<string>, name: string, artist: string)

  const Separator: string := " - "

  /** The text of an answer button: "<title> - <first artist>". */
  function Label(song: Song): (r: string)
    ensures |r| == |song.name| + |Separator| + |song.artist|
    ensures r[..|song.name|] == song.name && r[|song.name| + |Separator|..] == song.artist
    ensures r[|song.name|..|song.name| + |Separator|] == Separator
  {
    song.name + Separator + song.artist
  }
}
