/**
 * The part of the theme the middlewares read: the spacing base and the
 * breakpoint widths in pixels.
 */
module Themes {
  import opened Wrappers

  /**
   * `HoneyTheme`, reduced to `spacings.base` and `breakpoints` (a partial map
   * from breakpoint names such as `xs`, `sm`, `md`, `lg`, `xl` to pixel widths;
   * `None` when the theme has no `breakpoints` object).
   */
  datatype Theme = Theme(spacingBase: int, breakpoints: Option<map<string, int>>)

  /** `theme?.spacings.base ?? 0` */
  function SpacingBase(theme: Option<Theme>): (r: int)
    ensures theme.None? ==> r == 0
    ensures theme.Some? ==> r == theme.value.spacingBase
  {
    if theme.Some? then theme.value.spacingBase else 0
  }

  /** The mock theme used as example data: base 8, breakpoints 480/768/992/1200/1440. */
  const ExampleTheme := Theme(8, Some(map["xs" := 480, "sm" := 768, "md" := 992, "lg" := 1200, "xl" := 1440]))
}
