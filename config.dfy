/** The style settings of the converter (format-wechat.js:12-29), as the
    fixed strings they are interpolated as. */
module Config {
  const HeadingColor: string := "#1d4ed8"
  const BoldColor: string := "#60a5fa"
  const TextColor: string := "#333333"
  const FontSize: string := "16px"
  const LineHeight: string := "1.8"
  const ParagraphMargin: string := "1.5em"
  const H1Size: string := "24px"
  const H2Size: string := "20px"
  const H3Size: string := "18px"
}
