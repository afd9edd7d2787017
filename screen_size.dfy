/**
 * The breakpoints of `src/hooks/useScreenSize.ts`: the device class of a
 * window width and the Tailwind-style `sm`…`2xl` flags. Reading the
 * window and reacting to resize events are left to the browser; the
 * model takes the width (a whole number of CSS pixels) as a parameter.
 */
module ScreenSize {
  /** `"mobile" | "tablet" | "desktop" | "large-desktop"` */
  datatype DeviceType = Mobile | Tablet | Desktop | LargeDesktop

  const SM: int := 640
  const MD: int := 768
  const LG: int := 1024
  const XL: int := 1280
  const XXL: int := 1536

  /** `getDeviceType`: below 640 mobile, below 1024 tablet, below 1280 desktop, else large desktop. */
  function GetDeviceType(width: int): (r: DeviceType)
    ensures r == Mobile <==> width < SM
    ensures r == Tablet <==> SM <= width < LG
    ensures r == Desktop <==> LG <= width < XL
    ensures r == LargeDesktop <==> XL <= width
  {
    if width < 640 then Mobile
    else if width >= 640 && width < 1024 then Tablet
    else if width >= 1024 && width < 1280 then Desktop
    else LargeDesktop
  }

  /** The `ScreenSize` record that `getSize` builds. */
  datatype Size = Size(
    width: int, height: int, device: DeviceType,
    isMobile: bool, isTablet: bool, isDesktop: bool, isLargeDesktop: bool,
    isSm: bool, isMd: bool, isLg: bool, isXl: bool, is2xl: bool)

  /** `getSize`, with the window's inner width and height given. */
  function GetSize(width: int, height: int): (r: Size)
    ensures r.width == width && r.height == height
    ensures r.device == GetDeviceType(width)
  {
    Size(width, height, GetDeviceType(width),
         width < 640, width >= 640 && width < 1024, width >= 1024 && width < 1280, width >= 1280,
         width >= 640, width >= 768, width >= 1024, width >= 1280, width >= 1536)
  }

  /** Exactly one device flag is set, and it is the one for `device`. */
  lemma OneDeviceFlag(width: int, height: int)
    ensures var s := GetSize(width, height);
            && (s.isMobile <==> s.device == Mobile)
            && (s.isTablet <==> s.device == Tablet)
            && (s.isDesktop <==> s.device == Desktop)
            && (s.isLargeDesktop <==> s.device == LargeDesktop)
            && (if s.isMobile then 1 else 0) + (if s.isTablet then 1 else 0)
               + (if s.isDesktop then 1 else 0) + (if s.isLargeDesktop then 1 else 0) == 1
  {
  }

  /** The breakpoint flags are nested: each wider breakpoint implies the narrower ones. */
  lemma BreakpointsNested(width: int, height: int)
    ensures var s := GetSize(width, height);
            && (s.is2xl ==> s.isXl) && (s.isXl ==> s.isLg) && (s.isLg ==> s.isMd) && (s.isMd ==> s.isSm)
            && (s.isSm <==> !s.isMobile)
            && (s.isLg <==> s.isDesktop || s.isLargeDesktop)
            && (s.isXl <==> s.isLargeDesktop)
  {
  }

  /** A wider window never gets a smaller device class. */
  lemma DeviceMonotone(w1: int, w2: int)
    requires w1 <= w2
    ensures Rank(GetDeviceType(w1)) <= Rank(GetDeviceType(w2))
  {
  }

  /** The device classes from narrowest to widest. */
  function Rank(d: DeviceType): nat
  {
    match d
    case Mobile => 0
    case Tablet => 1
    case Desktop => 2
    case LargeDesktop => 3
  }
}
