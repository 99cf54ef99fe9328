/** Column and field names shared by the analyzer and the prompt builder:
    the sheet's headers, the five ratio columns, and the older ratio names
    the prompt still accepts. */
module Columns {

  const TitleHook: string := "Title/Hook"
  const Caption: string := "Caption"
  const Hashtags: string := "Hashtags"
  const NotesTopic: string := "Notes (Topic/Emotion)"
  const ViewsDay: string := "Views (24h)"
  const Views: string := "Views"
  const Likes: string := "Likes"
  const Comments: string := "Comments"
  const Saves: string := "Saves"

  const ViewsToLike: string := "Views to Like Ratio (%)"
  const ViewsToComment: string := "Views to Comment Ratio (%)"
  const ViewsToSave: string := "Views to Save Ratio (%)"
  const LikeToComment: string := "Like to Comment Ratio (%)"
  const LikeToSave: string := "Like to Save Ratio (%)"

  /** The ratio columns, in the order the analyzer assigns them. */
  const RatioColumns: seq<string> := [ViewsToLike, ViewsToComment, ViewsToSave, LikeToComment, LikeToSave]

  /** Older names of the same five ratios, position by position. */
  const LegacyRatioColumns: seq<string> := [
    "Like-to-View Ratio (%)", "Comment-to-View Ratio (%)", "Save-to-View Ratio (%)",
    "Comment-to-Like Ratio (%)", "Save-to-Like Ratio (%)"]
}
