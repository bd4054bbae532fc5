/**
 * The podcast home-screen widget's update callback. For every widget id the
 * host passes in, the provider fills a fresh view tree from the stored
 * widget state (episode title, artwork, play/pause label), binds the four
 * tap actions, and submits the tree to the widget manager.
 *
 * The framework objects keep only their effect: `RemoteViews` is the set of
 * values its setters record, `AppWidgetManager` the log of submissions.
 * Decoding an image file is a function the caller supplies.
 */
module PodcastWidget {
  import opened Opt

  /** The values the callback reads from the widget's shared preferences:
      `episode_title`, `artwork_path` and `is_playing`, each possibly absent. */
  datatype WidgetState = WidgetState(
    episodeTitle: Option<string>,
    artworkPath: Option<string>,
    isPlaying: Option<bool>
  )

  /** A decoded image: its size and its ARGB pixels. */
  datatype Bitmap = Bitmap(width: nat, height: nat, pixels: seq<bv32>)

  /** What decoding the file at a path gives: an image, or an exception. */
  datatype DecodeResult = Decoded(bitmap: Bitmap) | DecodeFailed

  /** The built-in drawable the widget shows when there is no artwork. */
  datatype Drawable = IcMenuRecentHistory

  /** The content of an image view. */
  datatype Image = BitmapImage(bitmap: Bitmap) | ResourceImage(drawable: Drawable)

  const Placeholder: Image := ResourceImage(IcMenuRecentHistory)

  const NoEpisode := "No Episode"

  datatype Layout = PodcastWidgetLayout

  /** The views of the widget layout that the callback sets. */
  datatype ViewId = PodcastWidgetContainer | EpisodeTitle | Artwork | PlayPause | Rewind | Forward

  datatype ActivityClass = MainActivity

  /** The three controls' background actions: a closed set of tokens whose wire
      form is a `podcastWidget://` URI. */
  datatype WidgetAction = TogglePlayback | SkipBack | SkipForward {
    function ToUri(): string {
      match this
      case TogglePlayback => "podcastWidget://playpause"
      case SkipBack => "podcastWidget://rewind"
      case SkipForward => "podcastWidget://forward"
    }
  }

  /** Reads a token back from its wire form; any other URI is not a token. */
  function ActionFromUri(uri: string): Option<WidgetAction> {
    if uri == "podcastWidget://playpause" then Some(TogglePlayback)
    else if uri == "podcastWidget://rewind" then Some(SkipBack)
    else if uri == "podcastWidget://forward" then Some(SkipForward)
    else None
  }

  /** Every token reads back as itself, so distinct tokens have distinct URIs. */
  lemma ActionUriRoundTrip(a: WidgetAction, b: WidgetAction)
    ensures ActionFromUri(a.ToUri()) == Some(a)
    ensures a.ToUri() == b.ToUri() ==> a == b
  {
  }

  /** What tapping a view does: open an activity of the app, or send a
      background broadcast carrying a URI. */
  datatype PendingIntent = LaunchActivity(activity: ActivityClass) | BackgroundBroadcast(uri: string)

  /** A populated view tree, as the widget manager receives it. */
  datatype ViewTree = ViewTree(
    layout: Layout,
    texts: map<ViewId, string>,
    images: map<ViewId, Image>,
    clicks: map<ViewId, PendingIntent>
  )

  datatype Submission = Submission(widgetId: int, views: ViewTree)

  /** The title text: the stored title, or "No Episode" when there is none. */
  function TitleText(episodeTitle: Option<string>): (r: string)
    ensures episodeTitle.Some? ==> r == episodeTitle.value
    ensures episodeTitle.None? ==> r == "No Episode"
  {
    episodeTitle.GetOr(NoEpisode)
  }

  /** The artwork: the decoded image when there is a path and decoding it
      succeeds, the placeholder otherwise. */
  function ArtworkOrDefault(artworkPath: Option<string>, decodeFile: string -> DecodeResult): (r: Image)
    ensures artworkPath.None? ==> r == Placeholder
    ensures artworkPath.Some? && decodeFile(artworkPath.value).Decoded? ==>
      r == BitmapImage(decodeFile(artworkPath.value).bitmap)
    ensures r == Placeholder <==> artworkPath.None? || decodeFile(artworkPath.value).DecodeFailed?
  {
    match artworkPath
    case None => Placeholder
    case Some(path) =>
      match decodeFile(path)
      case Decoded(bitmap) => BitmapImage(bitmap)
      case DecodeFailed => Placeholder
  }

  /** Without a path the artwork does not depend on the decoder at all: no
      decode is attempted. */
  lemma NoDecodeWithoutPath(d1: string -> DecodeResult, d2: string -> DecodeResult)
    ensures ArtworkOrDefault(None, d1) == ArtworkOrDefault(None, d2) == Placeholder
  {
  }

  /** The play/pause label: "Pause" exactly when the flag is stored as true;
      an absent flag counts as false. */
  function PlayPauseLabel(isPlaying: Option<bool>): (r: string)
    ensures r == "Pause" <==> isPlaying == Some(true)
    ensures r == "Play" <==> isPlaying != Some(true)
  {
    if isPlaying.GetOr(false) then "Pause" else "Play"
  }

  /** The four tap bindings, the same for every state. */
  function ClickBindings(): map<ViewId, PendingIntent> {
    map[
      PodcastWidgetContainer := LaunchActivity(MainActivity),
      PlayPause := BackgroundBroadcast(TogglePlayback.ToUri()),
      Rewind := BackgroundBroadcast(SkipBack.ToUri()),
      Forward := BackgroundBroadcast(SkipForward.ToUri())
    ]
  }

  /** The view tree the callback builds for one widget. */
  function Render(state: WidgetState, decodeFile: string -> DecodeResult): ViewTree {
    ViewTree(
      PodcastWidgetLayout,
      map[EpisodeTitle := TitleText(state.episodeTitle), PlayPause := PlayPauseLabel(state.isPlaying)],
      map[Artwork := ArtworkOrDefault(state.artworkPath, decodeFile)],
      ClickBindings())
  }

  /** The root container opens the app's main activity, whatever the state. */
  lemma RootLaunchesApp(state: WidgetState, decodeFile: string -> DecodeResult)
    ensures PodcastWidgetContainer in Render(state, decodeFile).clicks
    ensures Render(state, decodeFile).clicks[PodcastWidgetContainer] == LaunchActivity(MainActivity)
  {
  }

  /** The three buttons send their fixed tokens, whatever the state, and these
      four are the only bindings. */
  lemma ButtonsSendFixedTokens(s1: WidgetState, d1: string -> DecodeResult, s2: WidgetState, d2: string -> DecodeResult)
    ensures var clicks := Render(s1, d1).clicks;
      && clicks.Keys == {PodcastWidgetContainer, PlayPause, Rewind, Forward}
      && clicks[PlayPause] == BackgroundBroadcast("podcastWidget://playpause")
      && clicks[Rewind] == BackgroundBroadcast("podcastWidget://rewind")
      && clicks[Forward] == BackgroundBroadcast("podcastWidget://forward")
    ensures Render(s1, d1).clicks == Render(s2, d2).clicks
  {
  }

  /** The texts and the image the tree holds, view by view. */
  lemma RenderContent(state: WidgetState, decodeFile: string -> DecodeResult)
    ensures var v := Render(state, decodeFile);
      && v.texts.Keys == {EpisodeTitle, PlayPause}
      && v.images.Keys == {Artwork}
      && v.texts[EpisodeTitle] == TitleText(state.episodeTitle)
      && v.texts[PlayPause] == PlayPauseLabel(state.isPlaying)
      && v.images[Artwork] == ArtworkOrDefault(state.artworkPath, decodeFile)
  {
  }

  /** The submissions one callback makes: one per id, in the order of the ids. */
  function Updates(ids: seq<int>, state: WidgetState, decodeFile: string -> DecodeResult): (r: seq<Submission>)
    ensures |r| == |ids|
    ensures forall k :: 0 <= k < |ids| ==> r[k].widgetId == ids[k] && r[k].views == Render(state, decodeFile)
  {
    if ids == [] then []
    else Updates(ids[..|ids| - 1], state, decodeFile) + [Submission(ids[|ids| - 1], Render(state, decodeFile))]
  }

  /** All widgets of one call show the same content, and an empty id array
      submits nothing. */
  lemma UpdatesUniform(ids: seq<int>, state: WidgetState, decodeFile: string -> DecodeResult)
    ensures forall i, j :: 0 <= i < j < |ids| ==>
      Updates(ids, state, decodeFile)[i].views == Updates(ids, state, decodeFile)[j].views
    ensures ids == [] ==> Updates(ids, state, decodeFile) == []
  {
  }

  /** The view tree under construction: what the `set*` calls have recorded. */
  class RemoteViews {
    const layout: Layout
    var texts: map<ViewId, string>
    var images: map<ViewId, Image>
    var clicks: map<ViewId, PendingIntent>

    constructor (layout: Layout)
      ensures this.layout == layout && texts == map[] && images == map[] && clicks == map[]
    {
      this.layout := layout;
      texts, images, clicks := map[], map[], map[];
    }

    function Tree(): ViewTree
      reads this
    {
      ViewTree(layout, texts, images, clicks)
    }

    method SetTextViewText(id: ViewId, text: string)
      modifies this
      ensures texts == old(texts)[id := text]
      ensures images == old(images) && clicks == old(clicks)
    {
      texts := texts[id := text];
    }

    method SetImageViewBitmap(id: ViewId, bitmap: Bitmap)
      modifies this
      ensures images == old(images)[id := BitmapImage(bitmap)]
      ensures texts == old(texts) && clicks == old(clicks)
    {
      images := images[id := BitmapImage(bitmap)];
    }

    method SetImageViewResource(id: ViewId, drawable: Drawable)
      modifies this
      ensures images == old(images)[id := ResourceImage(drawable)]
      ensures texts == old(texts) && clicks == old(clicks)
    {
      images := images[id := ResourceImage(drawable)];
    }

    method SetOnClickPendingIntent(id: ViewId, intent: PendingIntent)
      modifies this
      ensures clicks == old(clicks)[id := intent]
      ensures texts == old(texts) && images == old(images)
    {
      clicks := clicks[id := intent];
    }
  }

  /** The host's widget manager, seen through the submissions it receives. */
  class AppWidgetManager {
    var submissions: seq<Submission>

    constructor ()
      ensures submissions == []
    {
      submissions := [];
    }

    /** Hands a copy of the populated tree to the host for widget `widgetId`. */
    method UpdateAppWidget(widgetId: int, views: RemoteViews)
      modifies this
      ensures submissions == old(submissions) + [Submission(widgetId, views.Tree())]
    {
      submissions := submissions + [Submission(widgetId, views.Tree())];
    }
  }

  class PodcastWidgetProvider {

    constructor ()
    {
    }

    /** The `apply` block: a fresh view tree filled step by step. */
    method BuildViews(widgetData: WidgetState, decodeFile: string -> DecodeResult) returns (views: RemoteViews)
      ensures fresh(views)
      ensures views.Tree() == Render(widgetData, decodeFile)
    {
      views := new RemoteViews(PodcastWidgetLayout);
      views.SetOnClickPendingIntent(PodcastWidgetContainer, LaunchActivity(MainActivity));
      views.SetTextViewText(EpisodeTitle, widgetData.episodeTitle.GetOr(NoEpisode));
      match widgetData.artworkPath {
        case Some(artworkPath) =>
          match decodeFile(artworkPath) {
            case Decoded(bitmap) => views.SetImageViewBitmap(Artwork, bitmap);
            case DecodeFailed => views.SetImageViewResource(Artwork, IcMenuRecentHistory);
          }
        case None => views.SetImageViewResource(Artwork, IcMenuRecentHistory);
      }
      var isPlaying := widgetData.isPlaying.GetOr(false);
      var buttonText := if isPlaying then "Pause" else "Play";
      views.SetTextViewText(PlayPause, buttonText);
      views.SetOnClickPendingIntent(PlayPause, BackgroundBroadcast(TogglePlayback.ToUri()));
      views.SetOnClickPendingIntent(Rewind, BackgroundBroadcast(SkipBack.ToUri()));
      views.SetOnClickPendingIntent(Forward, BackgroundBroadcast(SkipForward.ToUri()));
    }

    /** One submission per id, in the order of the ids; a failed decode is
        absorbed into the placeholder and never leaves the callback. */
    method OnUpdate(appWidgetManager: AppWidgetManager, appWidgetIds: seq<int>, widgetData: WidgetState,
                    decodeFile: string -> DecodeResult)
      modifies appWidgetManager
      ensures appWidgetManager.submissions
           == old(appWidgetManager.submissions) + Updates(appWidgetIds, widgetData, decodeFile)
    {
      for k := 0 to |appWidgetIds|
        invariant appWidgetManager.submissions
               == old(appWidgetManager.submissions) + Updates(appWidgetIds[..k], widgetData, decodeFile)
      {
        var views := BuildViews(widgetData, decodeFile);
        appWidgetManager.UpdateAppWidget(appWidgetIds[k], views);
        assert appWidgetIds[..k + 1][..k] == appWidgetIds[..k];
      }
      assert appWidgetIds[..|appWidgetIds|] == appWidgetIds;
    }
  }
}
