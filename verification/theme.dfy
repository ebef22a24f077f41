/** The two colour pairs dark mode switches between.  Each pair is applied
    to the text area (background, foreground and insertion cursor, the
    cursor taking the foreground colour) and to the status bar.
 */
module Theme {

  datatype Colours = Colours(bg: string, fg: string)

  const DarkColours := Colours("#333333", "#ffffff")
  const LightColours := Colours("#ffffff", "#000000")

  function ColoursFor(dark: bool): (c: Colours)
    ensures dark <==> c == DarkColours
    ensures !dark <==> c == LightColours
  {
    if dark then DarkColours else LightColours
  }
}
