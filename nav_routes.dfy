/** The app's navigation route names and the builder of the notes-screen route. */
module NavRoutes {
  import opened Wrappers
  import FormUrlEncoding

  const TodoListScreen: string := "todoListScreen"
  const MainScreen: string := "mainScreen"
  const NotesWritingScreenRoute: string := "notesWritingScreen"
  const NotesTitleArg: string := "noteTitle"

  /** The route pattern registered for the notes screen, with its optional query argument. */
  const NotesWritingScreen: string := NotesWritingScreenRoute + "?" + NotesTitleArg + "={" + NotesTitleArg + "}"

  /** The route with the argument present, up to its value. */
  const NotesTitleQueryPrefix: string := NotesWritingScreenRoute + "?" + NotesTitleArg + "="

  lemma RouteConstants()
    ensures NotesWritingScreen == "notesWritingScreen?noteTitle={noteTitle}"
    ensures NotesTitleQueryPrefix == "notesWritingScreen?noteTitle="
    ensures NotesWritingScreen == NotesTitleQueryPrefix + "{" + NotesTitleArg + "}"
  {
  }

  /**
   * `notesWritingScreenWithOptionalTitle`: no title gives the bare route;
   * any title, the empty one included, gives the query form with the title
   * form-encoded.
   */
  function NotesWritingScreenWithOptionalTitle(title: Option<string>): (route: string)
    ensures title.None? ==> route == "notesWritingScreen"
    ensures title.Some? ==> route == "notesWritingScreen?noteTitle=" + FormUrlEncoding.Encode(title.value)
  {
    match title
    case Some(t) =>
      var encodedTitle := FormUrlEncoding.Encode(t);
      NotesWritingScreenRoute + "?" + NotesTitleArg + "=" + encodedTitle
    case None => NotesWritingScreenRoute
  }

  /**
   * Reads a notes-screen route back: none if it is not one, `Some(None)` for
   * the bare route, `Some(Some(t))` for a query whose value form-decodes to `t`.
   */
  function ParseNotesWritingRoute(route: string): Option<Option<string>> {
    if route == NotesWritingScreenRoute then Some(None)
    else if |NotesTitleQueryPrefix| <= |route| && route[..|NotesTitleQueryPrefix|] == NotesTitleQueryPrefix then
      match FormUrlEncoding.Decode(route[|NotesTitleQueryPrefix|..])
      case Some(t) => Some(Some(t))
      case None => None
    else None
  }

  /** The notes screen receives exactly the title the route was built from, or no title when there was none. */
  lemma ParseRouteRoundTrip(title: Option<string>)
    ensures ParseNotesWritingRoute(NotesWritingScreenWithOptionalTitle(title)) == Some(title)
  {
    if title.Some? {
      var route := NotesWritingScreenWithOptionalTitle(title);
      assert route[..|NotesTitleQueryPrefix|] == NotesTitleQueryPrefix;
      assert route[|NotesTitleQueryPrefix|..] == FormUrlEncoding.Encode(title.value);
      FormUrlEncoding.RoundTrip(title.value);
    }
  }

  /** Distinct titles, and no title versus a title, give distinct routes. */
  lemma DistinctTitlesDistinctRoutes(a: Option<string>, b: Option<string>)
    requires a != b
    ensures NotesWritingScreenWithOptionalTitle(a) != NotesWritingScreenWithOptionalTitle(b)
  {
    ParseRouteRoundTrip(a);
    ParseRouteRoundTrip(b);
  }

  /**
   * A titled route has one `?` and one `=`, both in its fixed prefix: the
   * encoded title cannot add a path segment, a query separator or a second
   * argument, whatever the title holds.
   */
  lemma TitleCannotBreakRoute(title: string)
    ensures var route := NotesWritingScreenWithOptionalTitle(Some(title));
            forall i :: |NotesTitleQueryPrefix| <= i < |route| ==> route[i] !in {'/', '?', '&', '=', '#'}
  {
    var route := NotesWritingScreenWithOptionalTitle(Some(title));
    var encoded := FormUrlEncoding.Encode(title);
    FormUrlEncoding.EncodeHasNoSeparators(title);
    forall i | |NotesTitleQueryPrefix| <= i < |route| ensures route[i] !in {'/', '?', '&', '=', '#'} {
      assert route[i] == encoded[i - |NotesTitleQueryPrefix|];
    }
  }
}
