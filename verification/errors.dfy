/** The three exception classes of the repository, as error tags.
    Each tag carries the reason the source states in its message. */
module Errors {

  datatype Reason =
    // Usuario constructor
    | EmptyName | EmptyUsername | EmptyEmail | EmptyPassword
    // account validation and uniqueness
    | UsernameInUse | InvalidEmail | ShortPassword | EmailInUse
    // account registry arguments and lookups
    | NullAccount | InvalidId | AccountNotFound | BlankUsername | BlankName | InvalidArgument
    // post registry
    | NullPost | PostNotFound | NoPostsByAuthor | AlreadyLiked | NotLiked
    | NullComment | CommentWithoutPost
    // post validation
    | EmptyContent | InvalidAuthor | ContentTooLong | InvalidAuthorId

  /** ValidacaoException, UsuarioException and PostException. */
  datatype Err =
    | ValidacaoException(reason: Reason)
    | UsuarioException(reason: Reason)
    | PostException(reason: Reason)
}
