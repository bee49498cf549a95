/**
 * The 256-entry lookup table of the table-driven CRC-16/XMODEM (`crc16_lookup_table`),
 * written as a balanced decision tree on the index so that each entry can be related to
 * its bitwise definition symbolically.
 */
module Crc16Table {

  /** Entry `i` of the lookup table. */
  function Entry(i: bv8): bv16 {
    if i < 128 then
      if i < 64 then
        if i < 32 then
          if i < 16 then
            if i < 8 then
              (if i < 4 then (if i < 2 then (if i < 1 then 0x0000 else 0x1021) else (if i < 3 then 0x2042 else 0x3063))
               else (if i < 6 then (if i < 5 then 0x4084 else 0x50a5) else (if i < 7 then 0x60c6 else 0x70e7)))
            else
              (if i < 12 then (if i < 10 then (if i < 9 then 0x8108 else 0x9129) else (if i < 11 then 0xa14a else 0xb16b))
               else (if i < 14 then (if i < 13 then 0xc18c else 0xd1ad) else (if i < 15 then 0xe1ce else 0xf1ef)))
          else
            if i < 24 then
              (if i < 20 then (if i < 18 then (if i < 17 then 0x1231 else 0x0210) else (if i < 19 then 0x3273 else 0x2252))
               else (if i < 22 then (if i < 21 then 0x52b5 else 0x4294) else (if i < 23 then 0x72f7 else 0x62d6)))
            else
              (if i < 28 then (if i < 26 then (if i < 25 then 0x9339 else 0x8318) else (if i < 27 then 0xb37b else 0xa35a))
               else (if i < 30 then (if i < 29 then 0xd3bd else 0xc39c) else (if i < 31 then 0xf3ff else 0xe3de)))
        else
          if i < 48 then
            if i < 40 then
              (if i < 36 then (if i < 34 then (if i < 33 then 0x2462 else 0x3443) else (if i < 35 then 0x0420 else 0x1401))
               else (if i < 38 then (if i < 37 then 0x64e6 else 0x74c7) else (if i < 39 then 0x44a4 else 0x5485)))
            else
              (if i < 44 then (if i < 42 then (if i < 41 then 0xa56a else 0xb54b) else (if i < 43 then 0x8528 else 0x9509))
               else (if i < 46 then (if i < 45 then 0xe5ee else 0xf5cf) else (if i < 47 then 0xc5ac else 0xd58d)))
          else
            if i < 56 then
              (if i < 52 then (if i < 50 then (if i < 49 then 0x3653 else 0x2672) else (if i < 51 then 0x1611 else 0x0630))
               else (if i < 54 then (if i < 53 then 0x76d7 else 0x66f6) else (if i < 55 then 0x5695 else 0x46b4)))
            else
              (if i < 60 then (if i < 58 then (if i < 57 then 0xb75b else 0xa77a) else (if i < 59 then 0x9719 else 0x8738))
               else (if i < 62 then (if i < 61 then 0xf7df else 0xe7fe) else (if i < 63 then 0xd79d else 0xc7bc)))
      else
        if i < 96 then
          if i < 80 then
            if i < 72 then
              (if i < 68 then (if i < 66 then (if i < 65 then 0x48c4 else 0x58e5) else (if i < 67 then 0x6886 else 0x78a7))
               else (if i < 70 then (if i < 69 then 0x0840 else 0x1861) else (if i < 71 then 0x2802 else 0x3823)))
            else
              (if i < 76 then (if i < 74 then (if i < 73 then 0xc9cc else 0xd9ed) else (if i < 75 then 0xe98e else 0xf9af))
               else (if i < 78 then (if i < 77 then 0x8948 else 0x9969) else (if i < 79 then 0xa90a else 0xb92b)))
          else
            if i < 88 then
              (if i < 84 then (if i < 82 then (if i < 81 then 0x5af5 else 0x4ad4) else (if i < 83 then 0x7ab7 else 0x6a96))
               else (if i < 86 then (if i < 85 then 0x1a71 else 0x0a50) else (if i < 87 then 0x3a33 else 0x2a12)))
            else
              (if i < 92 then (if i < 90 then (if i < 89 then 0xdbfd else 0xcbdc) else (if i < 91 then 0xfbbf else 0xeb9e))
               else (if i < 94 then (if i < 93 then 0x9b79 else 0x8b58) else (if i < 95 then 0xbb3b else 0xab1a)))
        else
          if i < 112 then
            if i < 104 then
              (if i < 100 then (if i < 98 then (if i < 97 then 0x6ca6 else 0x7c87) else (if i < 99 then 0x4ce4 else 0x5cc5))
               else (if i < 102 then (if i < 101 then 0x2c22 else 0x3c03) else (if i < 103 then 0x0c60 else 0x1c41)))
            else
              (if i < 108 then (if i < 106 then (if i < 105 then 0xedae else 0xfd8f) else (if i < 107 then 0xcdec else 0xddcd))
               else (if i < 110 then (if i < 109 then 0xad2a else 0xbd0b) else (if i < 111 then 0x8d68 else 0x9d49)))
          else
            if i < 120 then
              (if i < 116 then (if i < 114 then (if i < 113 then 0x7e97 else 0x6eb6) else (if i < 115 then 0x5ed5 else 0x4ef4))
               else (if i < 118 then (if i < 117 then 0x3e13 else 0x2e32) else (if i < 119 then 0x1e51 else 0x0e70)))
            else
              (if i < 124 then (if i < 122 then (if i < 121 then 0xff9f else 0xefbe) else (if i < 123 then 0xdfdd else 0xcffc))
               else (if i < 126 then (if i < 125 then 0xbf1b else 0xaf3a) else (if i < 127 then 0x9f59 else 0x8f78)))
    else
      if i < 192 then
        if i < 160 then
          if i < 144 then
            if i < 136 then
              (if i < 132 then (if i < 130 then (if i < 129 then 0x9188 else 0x81a9) else (if i < 131 then 0xb1ca else 0xa1eb))
               else (if i < 134 then (if i < 133 then 0xd10c else 0xc12d) else (if i < 135 then 0xf14e else 0xe16f)))
            else
              (if i < 140 then (if i < 138 then (if i < 137 then 0x1080 else 0x00a1) else (if i < 139 then 0x30c2 else 0x20e3))
               else (if i < 142 then (if i < 141 then 0x5004 else 0x4025) else (if i < 143 then 0x7046 else 0x6067)))
          else
            if i < 152 then
              (if i < 148 then (if i < 146 then (if i < 145 then 0x83b9 else 0x9398) else (if i < 147 then 0xa3fb else 0xb3da))
               else (if i < 150 then (if i < 149 then 0xc33d else 0xd31c) else (if i < 151 then 0xe37f else 0xf35e)))
            else
              (if i < 156 then (if i < 154 then (if i < 153 then 0x02b1 else 0x1290) else (if i < 155 then 0x22f3 else 0x32d2))
               else (if i < 158 then (if i < 157 then 0x4235 else 0x5214) else (if i < 159 then 0x6277 else 0x7256)))
        else
          if i < 176 then
            if i < 168 then
              (if i < 164 then (if i < 162 then (if i < 161 then 0xb5ea else 0xa5cb) else (if i < 163 then 0x95a8 else 0x8589))
               else (if i < 166 then (if i < 165 then 0xf56e else 0xe54f) else (if i < 167 then 0xd52c else 0xc50d)))
            else
              (if i < 172 then (if i < 170 then (if i < 169 then 0x34e2 else 0x24c3) else (if i < 171 then 0x14a0 else 0x0481))
               else (if i < 174 then (if i < 173 then 0x7466 else 0x6447) else (if i < 175 then 0x5424 else 0x4405)))
          else
            if i < 184 then
              (if i < 180 then (if i < 178 then (if i < 177 then 0xa7db else 0xb7fa) else (if i < 179 then 0x8799 else 0x97b8))
               else (if i < 182 then (if i < 181 then 0xe75f else 0xf77e) else (if i < 183 then 0xc71d else 0xd73c)))
            else
              (if i < 188 then (if i < 186 then (if i < 185 then 0x26d3 else 0x36f2) else (if i < 187 then 0x0691 else 0x16b0))
               else (if i < 190 then (if i < 189 then 0x6657 else 0x7676) else (if i < 191 then 0x4615 else 0x5634)))
      else
        if i < 224 then
          if i < 208 then
            if i < 200 then
              (if i < 196 then (if i < 194 then (if i < 193 then 0xd94c else 0xc96d) else (if i < 195 then 0xf90e else 0xe92f))
               else (if i < 198 then (if i < 197 then 0x99c8 else 0x89e9) else (if i < 199 then 0xb98a else 0xa9ab)))
            else
              (if i < 204 then (if i < 202 then (if i < 201 then 0x5844 else 0x4865) else (if i < 203 then 0x7806 else 0x6827))
               else (if i < 206 then (if i < 205 then 0x18c0 else 0x08e1) else (if i < 207 then 0x3882 else 0x28a3)))
          else
            if i < 216 then
              (if i < 212 then (if i < 210 then (if i < 209 then 0xcb7d else 0xdb5c) else (if i < 211 then 0xeb3f else 0xfb1e))
               else (if i < 214 then (if i < 213 then 0x8bf9 else 0x9bd8) else (if i < 215 then 0xabbb else 0xbb9a)))
            else
              (if i < 220 then (if i < 218 then (if i < 217 then 0x4a75 else 0x5a54) else (if i < 219 then 0x6a37 else 0x7a16))
               else (if i < 222 then (if i < 221 then 0x0af1 else 0x1ad0) else (if i < 223 then 0x2ab3 else 0x3a92)))
        else
          if i < 240 then
            if i < 232 then
              (if i < 228 then (if i < 226 then (if i < 225 then 0xfd2e else 0xed0f) else (if i < 227 then 0xdd6c else 0xcd4d))
               else (if i < 230 then (if i < 229 then 0xbdaa else 0xad8b) else (if i < 231 then 0x9de8 else 0x8dc9)))
            else
              (if i < 236 then (if i < 234 then (if i < 233 then 0x7c26 else 0x6c07) else (if i < 235 then 0x5c64 else 0x4c45))
               else (if i < 238 then (if i < 237 then 0x3ca2 else 0x2c83) else (if i < 239 then 0x1ce0 else 0x0cc1)))
          else
            if i < 248 then
              (if i < 244 then (if i < 242 then (if i < 241 then 0xef1f else 0xff3e) else (if i < 243 then 0xcf5d else 0xdf7c))
               else (if i < 246 then (if i < 245 then 0xaf9b else 0xbfba) else (if i < 247 then 0x8fd9 else 0x9ff8)))
            else
              (if i < 252 then (if i < 250 then (if i < 249 then 0x6e17 else 0x7e36) else (if i < 251 then 0x4e55 else 0x5e74))
               else (if i < 254 then (if i < 253 then 0x2e93 else 0x3eb2) else (if i < 255 then 0x0ed1 else 0x1ef0)))
  }
}
