/** The token trees a procedural macro receives (`proc_macro2::TokenTree`),
    reduced to what the pipeline front end looks at, and the errors its
    `syn` parsers report. */
module Tokens {

  datatype Delimiter = Parenthesis | Brace | Bracket

  /** One token tree. `Str` is a string literal (`syn::LitStr`), `Num` any
      other literal, written by its source text. */
  datatype Token =
    | Ident(name: string)
    | Str(value: string)
    | Num(text: string)
    | Punct(ch: char)
    | Group(delim: Delimiter, inner: seq<Token>)

  /** A parse error, one per message the front end can produce. The first
      five are those of `ParseStream::parse` when the next token is not the
      one asked for (or the stream is exhausted). */
  datatype ParseError =
    | ExpectedIdent
    | ExpectedStr
    | ExpectedPunct
    | ExpectedToken(ch: char)
    | ExpectedGroup
    | InvalidPunctuation
    | UnknownShaderType(name: string)
    | DuplicateShaderModule
    | SourceAlreadySpecified
    | InvalidField(name: string)
    | MissingSource
    | FileNotFound
    | CouldNotOpenFile
    | CouldNotReadFile
    | NoDirectory

  /** The next token of `ts` is the punctuation `c` (`input.parse::<Token![c]>()`). */
  predicate StartsWithPunct(ts: seq<Token>, c: char) {
    |ts| > 0 && ts[0] == Punct(c)
  }
}
