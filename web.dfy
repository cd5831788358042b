/** What a request brings to a handler and what the handler answers with.
    Rendering, flash messages and URLs are reduced to these values. */
module Web {
  import opened Models

  /** The request's session: the id of the signed-in user, if there is one. */
  datatype Session = Session(userId: Option<nat>)

  /** The guard every protected handler runs first: a user id is in the session. */
  predicate SignedIn(session: Session) {
    session.userId.Some?
  }

  /** The warnings a handler flashes when it sends the caller back to its form. */
  datatype Notice = MissingFields | RollExists | MissingDate

  /** What a state-changing handler answers.
      ToLogin: redirect to the login page; FormShown: the handler's form page (a GET);
      Rejected: redirect back to the form with a warning; Saved: redirect after a
      successful commit; NotFound: the 404 page; ServerError: the commit raised. */
  datatype Outcome = ToLogin | FormShown | Rejected(notice: Notice) | Saved | NotFound | ServerError

  /** What a read-only handler answers: the login redirect, or a page showing `content`. */
  datatype Page<T> = LoginRedirect | Shown(content: T)
}
