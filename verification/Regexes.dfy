/** Regular expressions, given by what searching and replacing do with them. */
module Regexes {
  import opened Bytes

  type RegexSearch = (Text, string) -> bool

  type RegexReplace = (Text, string, string) -> Text
}
