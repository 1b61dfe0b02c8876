/**
 * The part of a bibliography entry that the Related Articles tab reads:
 * its title, author and year fields, each of which may be missing.
 */
module Entries {

  datatype Option<+T> = None | Some(value: T) {
    /** The value, or `default` when it is missing (Java's `Optional.orElse`). */
    function GetOr(default: T): T {
      match this
      case Some(v) => v
      case None => default
    }
  }

  /** A recommended entry as returned by the recommendation service. */
  datatype Entry = Entry(title: Option<string>, author: Option<string>, year: Option<string>)

  /** The raw author string of an entry; a missing author field reads as "". */
  function AuthorOf(e: Entry): string {
    e.author.GetOr("")
  }

  /** The raw author strings of a recommendation list, in list order. */
  function AuthorStrings(list: seq<Entry>): seq<string> {
    seq(|list|, i requires 0 <= i < |list| => AuthorOf(list[i]))
  }
}
