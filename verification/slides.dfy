/** The fixed, build-time list of slides the hero carousel cycles through. */
module Slides {

  /** One carousel entry: an image reference with its heading and caption. */
  datatype Slide = Slide(src: string, title: string, description: string)

  /** The three slides of the landing page, in display order. */
  const CarouselImages: seq<Slide> := [
    Slide("/carousel-1.jpg",
          "Welcome to Rotaract DYPCOE",
          "Empowering Youth Through Service & Leadership"),
    Slide("/carousel-2.png",
          "Join Our Community",
          "Make a Difference in Society by participating in community service, leadership development, and social initiatives. Together we can create positive change."),
    Slide("/carousel-3.png",
          "Marathon 2024",
          "Run for a Cause - Register Now for our annual charity marathon. Join hundreds of runners supporting education and youth empowerment. Every step makes a difference.")
  ]

  /** The length of the slide list: the modulus of every index operation. */
  function SlideCount(): (n: nat)
    ensures n == 3
    ensures n > 0
  {
    |CarouselImages|
  }
}
