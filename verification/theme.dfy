/**
 The theme provider of components/ThemeContext.tsx: a `dark`/`streamer` toggle,
 restored from `localStorage['misrra-theme']` on mount and written back (with
 the `data-theme` attribute and the `streamer-mode` class) whenever it changes
 after mount.
 */
module Theme {
  import opened Text

  datatype Theme = Dark | Streamer

  function Name(t: Theme): string {
    match t
    case Dark => "dark"
    case Streamer => "streamer"
  }

  /** `prev === 'dark' ? 'streamer' : 'dark'`. */
  function Toggle(t: Theme): (r: Theme)
    ensures r != t
  {
    if t == Dark then Streamer else Dark
  }

  lemma ToggleInvolution(t: Theme)
    ensures Toggle(Toggle(t)) == t
  {
  }

  /** The provider's state together with the bits of the page it writes. */
  datatype Provider = Provider(
    theme: Theme,
    mounted: bool,
    saved: Option<string>,      // localStorage['misrra-theme']
    dataTheme: Option<string>,  // <html data-theme>
    streamerClass: bool)        // 'streamer-mode' in <html class>

  /** Before mount: `useState('dark')`, nothing written yet. */
  function Initial(saved: Option<string>, dataTheme: Option<string>, streamerClass: bool): (p: Provider)
    ensures p.theme == Dark && !p.mounted && p.saved == saved
  {
    Provider(Dark, false, saved, dataTheme, streamerClass)
  }

  /** The second effect: once mounted, mirror the theme into the page. */
  function Sync(p: Provider): (q: Provider)
    ensures !p.mounted ==> q == p
    ensures p.mounted ==> q.theme == p.theme && q.saved == Some(Name(p.theme))
  {
    if !p.mounted then p
    else p.(saved := Some(Name(p.theme)), dataTheme := Some(Name(p.theme)), streamerClass := p.theme == Streamer)
  }

  /** The first effect: the saved value switches to streamer only when it is
      exactly "streamer"; any other value, or none, keeps the current theme. */
  function Mount(p: Provider): (q: Provider)
    ensures q.mounted
    ensures q.theme == (if p.saved == Some("streamer") then Streamer else p.theme)
  {
    Sync(p.(mounted := true, theme := if p.saved == Some("streamer") then Streamer else p.theme))
  }

  /** `toggleTheme` followed by the effect it triggers. */
  function ToggleTheme(p: Provider): (q: Provider)
    ensures q.theme == Toggle(p.theme) && q.mounted == p.mounted
  {
    Sync(p.(theme := Toggle(p.theme)))
  }

  /** `isStreamer`. */
  predicate IsStreamer(p: Provider) {
    p.theme == Streamer
  }

  /** After mount the page and storage agree with the theme. */
  predicate Synced(p: Provider) {
    p.mounted ==>
      && p.saved == Some(Name(p.theme))
      && p.dataTheme == Some(Name(p.theme))
      && (p.streamerClass <==> IsStreamer(p))
  }

  lemma MountSynced(p: Provider)
    ensures Synced(Mount(p))
  {
  }

  lemma ToggleKeepsSynced(p: Provider)
    requires Synced(p)
    ensures Synced(ToggleTheme(p))
  {
  }

  /** A fresh page starts dark and turns streamer only on an exact saved
      "streamer". */
  lemma InitialTheme(saved: Option<string>, dataTheme: Option<string>, streamerClass: bool)
    ensures Mount(Initial(saved, dataTheme, streamerClass)).theme == Streamer <==> saved == Some("streamer")
  {
  }

  /** Reloading the page brings back the theme that was showing. */
  lemma ReloadRestores(p: Provider, dataTheme: Option<string>, streamerClass: bool)
    requires p.mounted && Synced(p)
    ensures Mount(Initial(p.saved, dataTheme, streamerClass)).theme == p.theme
  {
  }

  /** Toggling twice changes nothing, stored value included. */
  lemma ToggleTwice(p: Provider)
    requires p.mounted && Synced(p)
    ensures ToggleTheme(ToggleTheme(p)) == p
  {
  }
}
