/** The catalog data model.  Two variants of `Message` exist in the source:
    the one the merge engine and common/write_po.cpp use, with translator
    comments, `(location, comment)` pairs and flags kept apart, and the one
    lib/write_po.cpp prints, with a single list of tagged comments
    (common/ast.hpp). */
module Ast {
  import opened Wrappers

  /** `Comment::Kind`. */
  datatype Kind = Translator | Extracted | Reference | Flags | Previous

  /** One `#`-line of a catalog entry. */
  datatype Comment = Comment(kind: Kind, content: string)

  /** One element of `extractedComments`: `std::pair<std::optional<std::string>,
      std::optional<std::string>>`, a source location and a developer comment. */
  datatype Entry = Entry(location: Option<string>, comment: Option<string>)

  /** The merge-oriented message. */
  datatype Message = Message(
    translatorComments: seq<string>,
    extractedComments: seq<Entry>,
    flags: Option<string>,
    context: Option<string>,
    singular: string,
    plural: Option<string>,
    translation: seq<string>)

  /** The message with one list of tagged comments, as lib/write_po.cpp prints it. */
  datatype LibMessage = LibMessage(
    comments: seq<Comment>,
    context: Option<string>,
    singular: string,
    plural: Option<string>,
    translation: seq<string>)

  /** The unique key of a message within a merged catalog. */
  datatype Key = Key(context: Option<string>, singular: string)

  function KeyOf(m: Message): Key {
    Key(m.context, m.singular)
  }
}
