/**
 * The records that flow through the lottery checker: a reply fetched from the
 * social network, and the entry that records an accepted claim (one element of
 * `fullList`, and of players.json as the winner checker reads it back).
 */
module Records {
  /** A direct reply to the root post. `author.fid` and `author.username` are
      flattened into the record; the ISO timestamp is modelled by an integer
      instant, ordered as the parsed dates are. */
  datatype Reply = Reply(fid: int, username: string, text: string, timestamp: int)

  /** An accepted claim: `{ username, fid, number, timestamp, comment }`. */
  datatype Entry = Entry(username: string, fid: int, number: string, timestamp: int, comment: string)
}
