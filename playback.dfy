/**
 * `play_audio_file`: open the output with the platform's default application.
 * Every failure, including an unsupported platform, is caught and reported;
 * none escapes to the caller.
 */
module Playback {
  import opened Wrappers

  /** The value of `os.name`. */
  datatype Platform = Posix | Nt | OtherPlatform(name: string)

  /** A `subprocess.run` invocation: its argument vector and whether it goes through a shell. */
  datatype Command = Command(argv: seq<string>, shell: bool)

  /** What playback did: launched a command, or printed an error (after trying `attempted`). */
  datatype PlayOutcome = Launched(command: Command) | ErrorReported(attempted: Option<Command>)

  /** The opener for a platform: `xdg-open` on POSIX, `start` through the shell on Windows,
      none elsewhere. */
  function OpenCommand(platform: Platform, file: string): (command: Option<Command>)
    ensures command.Some? <==> !platform.OtherPlatform?
    ensures command.Some? ==> |command.value.argv| == 2 && command.value.argv[1] == file
    ensures command.Some? ==> command.value.argv[0] == (if platform == Posix then "xdg-open" else "start")
    ensures command.Some? ==> (command.value.shell <==> platform == Nt)
  {
    match platform
    case Posix => Some(Command(["xdg-open", file], false))
    case Nt => Some(Command(["start", file], true))
    case OtherPlatform(_) => None
  }

  /** Playback of `file`; `launchRaises` says whether running a command raises. */
  function PlayAudioFile(platform: Platform, file: string, launchRaises: Command -> bool): (outcome: PlayOutcome)
    ensures outcome.Launched? <==> !platform.OtherPlatform? && !launchRaises(OpenCommand(platform, file).value)
    ensures outcome.Launched? ==> Some(outcome.command) == OpenCommand(platform, file)
    ensures outcome.ErrorReported? ==> outcome.attempted == OpenCommand(platform, file)
  {
    match OpenCommand(platform, file)
    case None => ErrorReported(None)
    case Some(command) => if launchRaises(command) then ErrorReported(Some(command)) else Launched(command)
  }
}
